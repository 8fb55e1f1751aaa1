/**
 * The server-side contact service over the `contacts` table: creating a row,
 * recording a swipe, looking rows up, and the accepted list with its
 * four-category completeness report (birthday, address, relationship, socials).
 */
module ServerContacts {
  import opened Wrappers
  import opened Swipe
  import Lists
  import Categories

  /** The fields a client supplies for a new contact; `None` is SQL NULL. */
  datatype ContactData = ContactData(
    name: string,
    birthday: Option<string>,
    address: Option<string>,
    relationship: Option<string>,
    phone: Option<string>,
    email: Option<string>,
    instagram: Option<string>,
    twitter: Option<string>,
    facebook: Option<string>)

  /** A row of the `contacts` table. */
  datatype Contact = Contact(
    id: string,
    name: string,
    birthday: Option<string>,
    address: Option<string>,
    relationship: Option<string>,
    phone: Option<string>,
    email: Option<string>,
    instagram: Option<string>,
    twitter: Option<string>,
    facebook: Option<string>,
    swipeStatus: SwipeStatus,
    createdAt: string,
    updatedAt: string)

  /** The completeness report of one row; it is derived and never stored. */
  datatype ContactCompleteness = ContactCompleteness(
    id: string,
    name: string,
    hasBirthday: bool,
    hasAddress: bool,
    hasRelationship: bool,
    hasSocials: bool,
    completenessPercentage: real,
    missingFields: seq<string>)

  /** The error `createContact` reports when the generated id is already taken. */
  const DuplicateId := "Failed to create contact: SqliteError: UNIQUE constraint failed: contacts.id"
  /** The error `updateSwipeStatus` reports when no row has the id. */
  const NotFoundAfterUpdate := "Failed to update swipe status: Error: Contact not found after update"

  // ---------------------------------------------------------------------------
  // Completeness

  /** The category names, in declaration order. */
  const CategoryNames: seq<string> := ["birthday", "address", "relationship", "socials"]

  /** JavaScript truthiness of a nullable text column: NULL and "" are both false. */
  predicate Present(s: Option<string>)
  {
    s.Some? && s.value != ""
  }

  predicate HasBirthday(c: Contact) { Present(c.birthday) }
  predicate HasAddress(c: Contact) { Present(c.address) }
  predicate HasRelationship(c: Contact) { Present(c.relationship) }
  predicate HasSocials(c: Contact) { Present(c.instagram) || Present(c.twitter) || Present(c.facebook) }

  /** The category flags of a row, in declaration order. */
  function Flags(c: Contact): (f: seq<bool>)
    ensures |f| == |CategoryNames|
  {
    [HasBirthday(c), HasAddress(c), HasRelationship(c), HasSocials(c)]
  }

  /** The completeness report of `c`: the specification `CalculateCompleteness` meets. */
  function Completeness(c: Contact): (r: ContactCompleteness)
    ensures r.id == c.id && r.name == c.name
  {
    ContactCompleteness(
      c.id, c.name, HasBirthday(c), HasAddress(c), HasRelationship(c), HasSocials(c),
      Categories.Percentage(Categories.CountTrue(Flags(c)), |Flags(c)|),
      Categories.Missing(CategoryNames, Flags(c)))
  }

  /** The report's own flags, in declaration order. */
  function ReportFlags(r: ContactCompleteness): seq<bool>
  {
    [r.hasBirthday, r.hasAddress, r.hasRelationship, r.hasSocials]
  }

  /** Evaluates a row the way the service does: four tests, then one push per missing category. */
  method CalculateCompleteness(c: Contact) returns (r: ContactCompleteness)
    ensures r == Completeness(c)
    ensures r.missingFields == Categories.Missing(CategoryNames, ReportFlags(r))
  {
    var hasBirthday := HasBirthday(c);
    var hasAddress := HasAddress(c);
    var hasRelationship := HasRelationship(c);
    var hasSocials := HasSocials(c);

    var fields := [hasBirthday, hasAddress, hasRelationship, hasSocials];
    assert fields == Flags(c);
    var completedFields := Categories.CountTrue(fields);
    var completenessPercentage := Categories.Percentage(completedFields, |fields|);

    var missingFields: seq<string> := [];
    if !hasBirthday { missingFields := missingFields + ["birthday"]; }
    if !hasAddress { missingFields := missingFields + ["address"]; }
    if !hasRelationship { missingFields := missingFields + ["relationship"]; }
    if !hasSocials { missingFields := missingFields + ["socials"]; }
    assert missingFields == Categories.Missing(CategoryNames, fields) by {
      Categories.MissingOfFour(CategoryNames, fields);
    }

    r := ContactCompleteness(c.id, c.name, hasBirthday, hasAddress, hasRelationship, hasSocials,
                             completenessPercentage, missingFields);
  }

  /** The percentage is 25 per satisfied category of the report, so one of 0, 25, 50, 75, 100. */
  lemma PercentageCountsCategories(c: Contact)
    ensures var r := Completeness(c);
            r.completenessPercentage == 25.0 * Categories.CountTrue(ReportFlags(r)) as real
            && r.completenessPercentage in {0.0, 25.0, 50.0, 75.0, 100.0}
  {
    var r := Completeness(c);
    assert ReportFlags(r) == Flags(c);
    Categories.PercentageOfFour(Categories.CountTrue(Flags(c)));
  }

  /**
   * A category name is among the missing fields exactly when that category is
   * unsatisfied; `socials` is missing exactly when none of the three handles is set.
   */
  lemma MissingFieldsNameUnsatisfied(c: Contact)
    ensures var r := Completeness(c);
            && ("birthday" in r.missingFields <==> !Present(c.birthday))
            && ("address" in r.missingFields <==> !Present(c.address))
            && ("relationship" in r.missingFields <==> !Present(c.relationship))
            && ("socials" in r.missingFields <==>
                  !Present(c.instagram) && !Present(c.twitter) && !Present(c.facebook))
  {
    var flags := Flags(c);
    assert Completeness(c).missingFields == Categories.Missing(CategoryNames, flags);
    forall k | 0 <= k < 4
      ensures CategoryNames[k] in Categories.Missing(CategoryNames, flags) <==> !flags[k]
    {
      Categories.MissingMembership(CategoryNames, flags, CategoryNames[k]);
    }
    assert CategoryNames[0] == "birthday" && CategoryNames[1] == "address";
    assert CategoryNames[2] == "relationship" && CategoryNames[3] == "socials";
  }

  /**
   * The missing fields and the completed categories make up all four, and the
   * missing fields are empty exactly when the percentage is 100.
   */
  lemma MissingFieldsCount(c: Contact)
    ensures var r := Completeness(c);
            && |r.missingFields| + Categories.CountTrue(ReportFlags(r)) == 4
            && (r.missingFields == [] <==> r.completenessPercentage == 100.0)
  {
    var r := Completeness(c);
    assert ReportFlags(r) == Flags(c);
    Categories.MissingCount(CategoryNames, Flags(c));
    Categories.PercentageOfFour(Categories.CountTrue(Flags(c)));
  }

  /** The missing fields follow the declaration order birthday, address, relationship, socials. */
  lemma MissingFieldsOrdered(c: Contact)
    ensures var m := Completeness(c).missingFields;
            forall i, j :: 0 <= i < j < |m| ==>
              Categories.IndexOf(CategoryNames, m[i]) < Categories.IndexOf(CategoryNames, m[j])
  {
    Categories.MissingInOrder(CategoryNames, Flags(c));
  }

  /**
   * Only the four categories matter: phone, e-mail, the swipe status and the
   * timestamps do not change the report, and an empty text counts as NULL.
   */
  lemma ReportIgnoresOtherColumns(c: Contact, phone: Option<string>, email: Option<string>,
                                  status: SwipeStatus, createdAt: string, updatedAt: string)
    ensures Completeness(c.(phone := phone, email := email, swipeStatus := status,
                            createdAt := createdAt, updatedAt := updatedAt))
            == Completeness(c)
    ensures Completeness(c.(address := Some(""))) == Completeness(c.(address := None))
    ensures Completeness(c.(instagram := Some(""), twitter := Some(""), facebook := Some("")))
            == Completeness(c.(instagram := None, twitter := None, facebook := None))
  {
  }

  /** A row with no category populated scores 0 and misses every category, in order. */
  lemma EmptyContactMissesAll(c: Contact)
    requires !HasBirthday(c) && !HasAddress(c) && !HasRelationship(c) && !HasSocials(c)
    ensures Completeness(c).completenessPercentage == 0.0
    ensures Completeness(c).missingFields == ["birthday", "address", "relationship", "socials"]
  {
    Categories.MissingAll(CategoryNames, Flags(c));
  }

  /** A row with every category populated scores 100 and misses nothing. */
  lemma FullContactMissesNone(c: Contact)
    requires HasBirthday(c) && HasAddress(c) && HasRelationship(c) && HasSocials(c)
    ensures Completeness(c).completenessPercentage == 100.0
    ensures Completeness(c).missingFields == []
  {
    MissingFieldsCount(c);
  }

  /** The row `createContact` inserts: the given fields, `pending`, both timestamps `now`. */
  function Inserted(id: string, data: ContactData, now: string): (c: Contact)
    ensures c.id == id && c.swipeStatus == Pending
  {
    Contact(id, data.name, data.birthday, data.address, data.relationship, data.phone, data.email,
            data.instagram, data.twitter, data.facebook, Pending, now, now)
  }

  /** A contact with birthday, address, relationship and an Instagram handle is complete. */
  lemma CompleteContactScenario(id: string, now: string)
    ensures var data := ContactData("Complete Contact", Some("1990-01-01"), Some("123 Test St"),
                                    Some("Friend"), Some("+1-555-0101"), Some("complete@example.com"),
                                    Some("@complete"), None, None);
            var r := Completeness(Inserted(id, data, now).(swipeStatus := Right));
            r.hasBirthday && r.hasAddress && r.hasRelationship && r.hasSocials
            && r.completenessPercentage == 100.0 && r.missingFields == []
  {
    var data := ContactData("Complete Contact", Some("1990-01-01"), Some("123 Test St"),
                            Some("Friend"), Some("+1-555-0101"), Some("complete@example.com"),
                            Some("@complete"), None, None);
    FullContactMissesNone(Inserted(id, data, now).(swipeStatus := Right));
  }

  /** A contact with only birthday and relationship is half complete, missing address and socials. */
  lemma PartialContactScenario(id: string, now: string)
    ensures var data := ContactData("Partial Contact", Some("1990-01-01"), None, Some("Friend"),
                                    None, None, None, None, None);
            var r := Completeness(Inserted(id, data, now).(swipeStatus := Right));
            r.hasBirthday && !r.hasAddress && r.hasRelationship && !r.hasSocials
            && r.completenessPercentage == 50.0 && r.missingFields == ["address", "socials"]
  {
    var data := ContactData("Partial Contact", Some("1990-01-01"), None, Some("Friend"),
                            None, None, None, None, None);
    var c := Inserted(id, data, now).(swipeStatus := Right);
    var flags := Flags(c);
    assert flags == [true, false, true, false];
    assert CategoryNames[1] == "address" && CategoryNames[3] == "socials";
    assert Categories.Missing(CategoryNames[..2], flags[..2]) == ["address"] by {
      Categories.MissingPrefix(CategoryNames, flags, 0, []);
      Categories.MissingPrefix(CategoryNames, flags, 1, []);
    }
    assert Categories.Missing(CategoryNames[..4], flags[..4]) == ["address", "socials"] by {
      Categories.MissingPrefix(CategoryNames, flags, 2, ["address"]);
      Categories.MissingPrefix(CategoryNames, flags, 3, ["address"]);
    }
    assert CategoryNames[..4] == CategoryNames && flags[..4] == flags;
    Categories.MissingCount(CategoryNames, flags);
    Categories.PercentageOfFour(2);
  }

  // ---------------------------------------------------------------------------
  // The contacts table

  /** Whether a row has been swiped right. */
  predicate IsRight(c: Contact) { c.swipeStatus == Right }

  /** Any row. */
  predicate AnyRow(c: Contact) { true }

  /** The `contacts` table, keyed by its primary key `id`. */
  class ContactsTable {
    var rows: map<string, Contact>

    /** Every row is stored under its own id. */
    ghost predicate Valid()
      reads this
    {
      forall id :: id in rows ==> rows[id].id == id
    }

    /** A freshly created, empty table. */
    constructor ()
      ensures Valid() && rows == map[]
    {
      rows := map[];
    }

    /** `getContact`: the row with the id, or null (not an error) when there is none. */
    function GetContact(id: string): (r: Option<Contact>)
      reads this
      requires Valid()
      ensures r.None? <==> id !in rows
      ensures r.Some? ==> r.value.id == id && r.value in rows.Values
    {
      if id in rows then Some(rows[id]) else None
    }

    /** `SELECT * FROM contacts WHERE ...`: every row satisfying `where`, each exactly once. */
    method Select(where: Contact -> bool) returns (rs: seq<Contact>)
      requires Valid()
      ensures forall i :: 0 <= i < |rs| ==> rs[i].id in rows && rows[rs[i].id] == rs[i] && where(rs[i])
      ensures forall id :: id in rows && where(rows[id]) ==> exists i :: 0 <= i < |rs| && rs[i].id == id
      ensures forall i, j :: 0 <= i < j < |rs| ==> rs[i].id != rs[j].id
    {
      rs := [];
      var remaining := rows.Keys;
      while remaining != {}
        invariant remaining <= rows.Keys
        invariant forall i :: 0 <= i < |rs| ==>
                    rs[i].id in rows && rs[i].id !in remaining && rows[rs[i].id] == rs[i] && where(rs[i])
        invariant forall id :: id in rows && id !in remaining && where(rows[id]) ==>
                    exists i :: 0 <= i < |rs| && rs[i].id == id
        invariant forall i, j :: 0 <= i < j < |rs| ==> rs[i].id != rs[j].id
        decreases |remaining|
      {
        var id :| id in remaining;
        ghost var before := rs;
        if where(rows[id]) {
          rs := rs + [rows[id]];
        }
        remaining := remaining - {id};
        forall x | x in rows && x !in remaining && where(rows[x])
          ensures exists i :: 0 <= i < |rs| && rs[i].id == x
        {
          if x == id {
            assert rs[|rs| - 1].id == x;
          } else {
            var i :| 0 <= i < |before| && before[i].id == x;
            assert rs[i].id == x;
          }
        }
      }
    }

    /** `getAllContacts`: every row exactly once (the order by creation time is not modelled). */
    method GetAllContacts() returns (rs: seq<Contact>)
      requires Valid()
      ensures forall i :: 0 <= i < |rs| ==> rs[i].id in rows && rows[rs[i].id] == rs[i]
      ensures forall id :: id in rows ==> exists i :: 0 <= i < |rs| && rs[i].id == id
      ensures forall i, j :: 0 <= i < j < |rs| ==> rs[i].id != rs[j].id
    {
      rs := Select(AnyRow);
    }

    /**
     * `getSwipedRightContacts`: the report of every row swiped right, each
     * exactly once, and of no pending or left row.
     */
    method GetSwipedRightContacts() returns (r: seq<ContactCompleteness>)
      requires Valid()
      ensures forall i :: 0 <= i < |r| ==>
                r[i].id in rows && rows[r[i].id].swipeStatus == Right && r[i] == Completeness(rows[r[i].id])
      ensures forall id :: id in rows && rows[id].swipeStatus == Right ==>
                exists i :: 0 <= i < |r| && r[i].id == id
      ensures forall i, j :: 0 <= i < j < |r| ==> r[i].id != r[j].id
    {
      var contacts := Select(IsRight);
      r := Lists.Map(contacts, Completeness);
      forall id | id in rows && rows[id].swipeStatus == Right
        ensures exists i :: 0 <= i < |r| && r[i].id == id
      {
        assert IsRight(rows[id]);
        var i :| 0 <= i < |contacts| && contacts[i].id == id;
        assert r[i].id == id;
      }
    }

    /**
     * `createContact`: inserts a `pending` row with the given fields under the
     * generated id; an id already taken violates the primary key and changes nothing.
     */
    method CreateContact(id: string, data: ContactData, now: string) returns (res: Result<Contact, string>)
      requires Valid()
      modifies this
      ensures Valid()
      ensures id in old(rows) ==> res == Failure(DuplicateId) && rows == old(rows)
      ensures id !in old(rows) ==>
                res == Success(Inserted(id, data, now)) && rows == old(rows)[id := Inserted(id, data, now)]
      ensures res.Success? ==>
                res.value.swipeStatus == Pending && res.value.name == data.name && GetContact(id) == Some(res.value)
    {
      if id in rows {
        return Failure(DuplicateId);
      }
      rows := rows[id := Inserted(id, data, now)];
      var contact := GetContact(id);
      res := Success(contact.value);
    }

    /**
     * `updateSwipeStatus`: overwrites the status of the row with the id and
     * returns the updated row; with no such row nothing changes and the update
     * reports "not found".
     */
    method UpdateSwipeStatus(id: string, status: Decision, now: string) returns (res: Result<Contact, string>)
      requires Valid()
      modifies this
      ensures Valid()
      ensures id in old(rows) ==>
                res == Success(old(rows)[id].(swipeStatus := status, updatedAt := now))
                && rows == old(rows)[id := res.value]
      ensures id !in old(rows) ==> res == Failure(NotFoundAfterUpdate) && rows == old(rows)
      ensures res.Success? ==> res.value.swipeStatus == status && GetContact(id) == Some(res.value)
    {
      if id in rows {
        rows := rows[id := rows[id].(swipeStatus := status, updatedAt := now)];
      }
      var contact := GetContact(id);
      if contact.None? {
        return Failure(NotFoundAfterUpdate);
      }
      res := Success(contact.value);
    }
  }

  /**
   * Creating a complete contact, swiping it right and listing the accepted
   * contacts reports it complete; a second swipe left removes it from the list.
   */
  method SwipeRightThenListScenario(id: string, now: string) returns (listed: seq<ContactCompleteness>, relisted: seq<ContactCompleteness>)
    ensures exists i :: 0 <= i < |listed| && listed[i].id == id && listed[i].completenessPercentage == 100.0
    ensures forall i :: 0 <= i < |relisted| ==> relisted[i].id != id
  {
    var table := new ContactsTable();
    var data := ContactData("Complete Contact", Some("1990-01-01"), Some("123 Test St"),
                            Some("Friend"), Some("+1-555-0101"), Some("complete@example.com"),
                            Some("@complete"), None, None);
    var created := table.CreateContact(id, data, now);
    var swiped := table.UpdateSwipeStatus(id, Right, now);
    listed := table.GetSwipedRightContacts();
    CompleteContactScenario(id, now);
    var i :| 0 <= i < |listed| && listed[i].id == id;
    assert listed[i] == Completeness(Inserted(id, data, now).(swipeStatus := Right, updatedAt := now));
    ReportIgnoresOtherColumns(Inserted(id, data, now).(swipeStatus := Right), data.phone, data.email, Right, now, now);
    var again := table.UpdateSwipeStatus(id, Left, now);
    relisted := table.GetSwipedRightContacts();
  }
}
