/**
 * The device-side contact service: device contacts, the locally stored swipe
 * decisions, their merge, the accepted ("to visit") list and the
 * four-category completeness report (birthday, address, phone, email).
 */
module AppContacts {
  import opened Wrappers
  import opened Swipe
  import Lists
  import Categories

  /** A phone number entry; `kind` is the entry's label ("home", "work", ...). */
  datatype PhoneNumber = PhoneNumber(number: Option<string>, kind: Option<string>)
  /** An e-mail entry; `kind` is the entry's label. */
  datatype Email = Email(email: Option<string>, kind: Option<string>)
  datatype Address = Address(street: Option<string>, city: Option<string>,
                             region: Option<string>, postalCode: Option<string>)
  /** A birthday of which any part may be unknown. */
  datatype PartialDate = PartialDate(year: Option<int>, month: Option<int>, day: Option<int>)
  datatype Image = Image(uri: Option<string>)

  /** A contact as the device address book hands it over: its id may be missing. */
  datatype DeviceContact = DeviceContact(
    id: Option<string>,
    name: string,
    phoneNumbers: Option<seq<PhoneNumber>>,
    emails: Option<seq<Email>>,
    addresses: Option<seq<Address>>,
    birthday: Option<PartialDate>,
    imageAvailable: Option<bool>,
    image: Option<Image>)

  /** A contact the service works with: one whose id is defined. */
  type Contact = c: DeviceContact | c.id.Some?
    witness DeviceContact(Some(""), "", None, None, None, None, None, None)

  /** A stored swipe decision. */
  datatype SwipeData = SwipeData(contactId: string, status: SwipeStatus, timestamp: string)

  /** A contact decorated with its swipe status. */
  datatype ContactWithSwipe = ContactWithSwipe(contact: Contact, swipeStatus: SwipeStatus)

  /** The completeness report of one contact; it is derived and never stored. */
  datatype ContactCompleteness = ContactCompleteness(
    id: string,
    name: string,
    hasBirthday: bool,
    hasAddress: bool,
    hasPhone: bool,
    hasEmail: bool,
    completenessPercentage: real,
    missingFields: seq<string>)

  /** The error `loadDeviceContacts` throws when contacts access is not granted. */
  const PermissionRequired :=
    "Permission to access contacts is required to use this feature. Please enable it in your device settings."

  // ---------------------------------------------------------------------------
  // Completeness

  /** The category names, in declaration order. */
  const CategoryNames: seq<string> := ["birthday", "address", "phone", "email"]

  /** JavaScript truthiness of an optional number: absent and 0 are both false. */
  predicate Truthy(n: Option<int>)
  {
    n.Some? && n.value != 0
  }

  /** A list that exists and is non-empty. */
  predicate NonEmpty<T>(l: Option<seq<T>>)
  {
    l.Some? && |l.value| > 0
  }

  predicate HasBirthday(c: DeviceContact)
  {
    c.birthday.Some? && Truthy(c.birthday.value.month) && Truthy(c.birthday.value.day)
  }

  predicate HasAddress(c: DeviceContact) { NonEmpty(c.addresses) }
  predicate HasPhone(c: DeviceContact) { NonEmpty(c.phoneNumbers) }
  predicate HasEmail(c: DeviceContact) { NonEmpty(c.emails) }

  /** The category flags of a contact, in declaration order. */
  function Flags(c: DeviceContact): (f: seq<bool>)
    ensures |f| == |CategoryNames|
  {
    [HasBirthday(c), HasAddress(c), HasPhone(c), HasEmail(c)]
  }

  /** The completeness report of `c`: the specification `CalculateCompleteness` meets. */
  function Completeness(c: Contact): (r: ContactCompleteness)
    ensures r.id == c.id.value && r.name == c.name
  {
    ContactCompleteness(
      c.id.value, c.name, HasBirthday(c), HasAddress(c), HasPhone(c), HasEmail(c),
      Categories.Percentage(Categories.CountTrue(Flags(c)), |Flags(c)|),
      Categories.Missing(CategoryNames, Flags(c)))
  }

  /** The report's own flags, in declaration order. */
  function ReportFlags(r: ContactCompleteness): seq<bool>
  {
    [r.hasBirthday, r.hasAddress, r.hasPhone, r.hasEmail]
  }

  /** Evaluates a contact the way the service does: four tests, then one push per missing category. */
  method CalculateCompleteness(c: Contact) returns (r: ContactCompleteness)
    ensures r == Completeness(c)
    ensures r.missingFields == Categories.Missing(CategoryNames, ReportFlags(r))
  {
    var hasBirthday := HasBirthday(c);
    var hasAddress := HasAddress(c);
    var hasPhone := HasPhone(c);
    var hasEmail := HasEmail(c);

    var fields := [hasBirthday, hasAddress, hasPhone, hasEmail];
    assert fields == Flags(c);
    var completedFields := Categories.CountTrue(fields);
    var completenessPercentage := Categories.Percentage(completedFields, |fields|);

    var missingFields: seq<string> := [];
    if !hasBirthday { missingFields := missingFields + ["birthday"]; }
    if !hasAddress { missingFields := missingFields + ["address"]; }
    if !hasPhone { missingFields := missingFields + ["phone"]; }
    if !hasEmail { missingFields := missingFields + ["email"]; }
    assert missingFields == Categories.Missing(CategoryNames, fields) by {
      Categories.MissingOfFour(CategoryNames, fields);
    }

    r := ContactCompleteness(c.id.value, c.name, hasBirthday, hasAddress, hasPhone, hasEmail,
                             completenessPercentage, missingFields);
  }

  /** The percentage is 25 per satisfied category of the report, so one of 0, 25, 50, 75, 100. */
  lemma PercentageCountsCategories(c: Contact)
    ensures var r := Completeness(c);
            r.completenessPercentage == 25.0 * Categories.CountTrue(ReportFlags(r)) as real
            && r.completenessPercentage in {0.0, 25.0, 50.0, 75.0, 100.0}
  {
    var r := Completeness(c);
    assert ReportFlags(r) == Flags(c);
    Categories.PercentageOfFour(Categories.CountTrue(Flags(c)));
  }

  /** A category name is among the missing fields exactly when that category is unsatisfied. */
  lemma MissingFieldsNameUnsatisfied(c: Contact)
    ensures var r := Completeness(c);
            && ("birthday" in r.missingFields <==> !r.hasBirthday)
            && ("address" in r.missingFields <==> !r.hasAddress)
            && ("phone" in r.missingFields <==> !r.hasPhone)
            && ("email" in r.missingFields <==> !r.hasEmail)
  {
    var flags := Flags(c);
    assert Completeness(c).missingFields == Categories.Missing(CategoryNames, flags);
    forall k | 0 <= k < 4
      ensures CategoryNames[k] in Categories.Missing(CategoryNames, flags) <==> !flags[k]
    {
      Categories.MissingMembership(CategoryNames, flags, CategoryNames[k]);
    }
    assert CategoryNames[0] == "birthday" && CategoryNames[1] == "address";
    assert CategoryNames[2] == "phone" && CategoryNames[3] == "email";
  }

  /**
   * The missing fields and the completed categories make up all four, and the
   * missing fields are empty exactly when the percentage is 100.
   */
  lemma MissingFieldsCount(c: Contact)
    ensures var r := Completeness(c);
            && |r.missingFields| + Categories.CountTrue(ReportFlags(r)) == 4
            && (r.missingFields == [] <==> r.completenessPercentage == 100.0)
  {
    var r := Completeness(c);
    assert ReportFlags(r) == Flags(c);
    Categories.MissingCount(CategoryNames, Flags(c));
    Categories.PercentageOfFour(Categories.CountTrue(Flags(c)));
  }

  /** The missing fields follow the declaration order birthday, address, phone, email. */
  lemma MissingFieldsOrdered(c: Contact)
    ensures var m := Completeness(c).missingFields;
            forall i, j :: 0 <= i < j < |m| ==>
              Categories.IndexOf(CategoryNames, m[i]) < Categories.IndexOf(CategoryNames, m[j])
  {
    Categories.MissingInOrder(CategoryNames, Flags(c));
  }

  /**
   * Month and day must both be present and non-zero; a year alone is no
   * birthday, and a month or day of 0 counts as absent.
   */
  lemma BirthdayNeedsMonthAndDay(c: Contact)
    ensures Completeness(c).hasBirthday <==>
              c.birthday.Some?
              && c.birthday.value.month.Some? && c.birthday.value.month.value != 0
              && c.birthday.value.day.Some? && c.birthday.value.day.value != 0
    ensures "birthday" in Completeness(c).missingFields <==> !Completeness(c).hasBirthday
    ensures c.birthday.Some? && (c.birthday.value.month == Some(0) || c.birthday.value.day == Some(0)) ==>
              "birthday" in Completeness(c).missingFields
  {
    MissingFieldsNameUnsatisfied(c);
  }

  /** A contact with no category populated scores 0 and misses every category, in order. */
  lemma EmptyContactMissesAll(c: Contact)
    requires !HasBirthday(c) && !HasAddress(c) && !HasPhone(c) && !HasEmail(c)
    ensures Completeness(c).completenessPercentage == 0.0
    ensures Completeness(c).missingFields == ["birthday", "address", "phone", "email"]
  {
    Categories.MissingAll(CategoryNames, Flags(c));
  }

  /** A contact with every category populated scores 100 and misses nothing. */
  lemma FullContactMissesNone(c: Contact)
    requires HasBirthday(c) && HasAddress(c) && HasPhone(c) && HasEmail(c)
    ensures Completeness(c).completenessPercentage == 100.0
    ensures Completeness(c).missingFields == []
  {
    MissingFieldsCount(c);
  }

  // ---------------------------------------------------------------------------
  // Loading, merging and filtering

  /** Whether an address-book entry has an id. */
  predicate HasId(c: DeviceContact) { c.id.Some? }

  /** The contacts that have an id, in address-book order. */
  function WithIds(data: seq<DeviceContact>): (r: seq<Contact>)
    ensures forall i :: 0 <= i < |r| ==> r[i] in data
    ensures forall i :: 0 <= i < |data| && data[i].id.Some? ==> data[i] in r
  {
    Lists.Filter(data, HasId)
  }

  /** Dropping entries without id keeps the order of the rest. */
  lemma WithIdsIsStable(xs: seq<DeviceContact>, ys: seq<DeviceContact>)
    ensures WithIds(xs + ys) == WithIds(xs) + WithIds(ys)
  {
    Lists.FilterAppend(xs, ys, HasId);
  }

  /** `loadDeviceContacts`: an error without permission, else the contacts with an id. */
  function LoadDeviceContacts(granted: bool, data: seq<DeviceContact>): (r: Result<seq<Contact>, string>)
    ensures !granted <==> r == Failure(PermissionRequired)
    ensures granted ==> r.Success? && r.value == WithIds(data)
  {
    if !granted then Failure(PermissionRequired) else Success(WithIds(data))
  }

  /** The status a swipe map records for `id`; `pending` when it records none. */
  function StatusOf(swipes: map<string, SwipeData>, id: string): SwipeStatus
  {
    if id in swipes then swipes[id].status else Pending
  }

  /** Decorates each contact with its status. */
  function Merge(contacts: seq<Contact>, swipes: map<string, SwipeData>): (r: seq<ContactWithSwipe>)
    ensures |r| == |contacts|
    ensures forall i :: 0 <= i < |r| ==>
              r[i].contact == contacts[i] && r[i].swipeStatus == StatusOf(swipes, contacts[i].id.value)
  {
    if contacts == [] then []
    else [ContactWithSwipe(contacts[0], StatusOf(swipes, contacts[0].id.value))] + Merge(contacts[1..], swipes)
  }

  /** The contacts whose recorded status is `right`, in input order. */
  function Accepted(contacts: seq<Contact>, swipes: map<string, SwipeData>): (r: seq<Contact>)
  {
    Lists.Filter(contacts, (c: Contact) => StatusOf(swipes, c.id.value) == Right)
  }

  /** The reports of the accepted contacts: what `getRightSwipedContacts` returns. */
  function RightSwipedReports(contacts: seq<Contact>, swipes: map<string, SwipeData>): (r: seq<ContactCompleteness>)
  {
    Lists.Map(Accepted(contacts, swipes), Completeness)
  }

  /** The accepted list holds exactly the contacts whose recorded status is `right`. */
  lemma AcceptedExactly(contacts: seq<Contact>, swipes: map<string, SwipeData>, c: Contact)
    ensures c in Accepted(contacts, swipes) <==> c in contacts && StatusOf(swipes, c.id.value) == Right
  {
    var acc := Accepted(contacts, swipes);
    if c in acc {
      var j :| 0 <= j < |acc| && acc[j] == c;
    }
    if c in contacts && StatusOf(swipes, c.id.value) == Right {
      var k :| 0 <= k < |contacts| && contacts[k] == c;
    }
  }

  /**
   * `getRightSwipedContacts` reports exactly the contacts whose recorded status
   * is `right`: every report is that of such a contact, and every such contact
   * is reported.
   */
  lemma RightSwipedReportsExactly(contacts: seq<Contact>, swipes: map<string, SwipeData>)
    ensures var r := RightSwipedReports(contacts, swipes);
            && (forall i :: 0 <= i < |r| ==>
                  exists c :: c in contacts && StatusOf(swipes, c.id.value) == Right && r[i] == Completeness(c))
            && (forall c :: c in contacts && StatusOf(swipes, c.id.value) == Right ==> Completeness(c) in r)
  {
    var acc := Accepted(contacts, swipes);
    var r := RightSwipedReports(contacts, swipes);
    forall i | 0 <= i < |r|
      ensures exists c :: c in contacts && StatusOf(swipes, c.id.value) == Right && r[i] == Completeness(c)
    {
      AcceptedExactly(contacts, swipes, acc[i]);
      assert r[i] == Completeness(acc[i]);
    }
    forall c | c in contacts && StatusOf(swipes, c.id.value) == Right
      ensures Completeness(c) in r
    {
      AcceptedExactly(contacts, swipes, c);
      var j :| 0 <= j < |acc| && acc[j] == c;
      assert r[j] == Completeness(c);
    }
  }

  /** Decorating, keeping the `right` ones and undecorating is the direct filter. */
  lemma {:induction false} MergeThenKeep(contacts: seq<Contact>, swipes: map<string, SwipeData>)
    ensures Accepted(contacts, swipes)
            == Lists.Map(Lists.Filter(Merge(contacts, swipes), (m: ContactWithSwipe) => m.swipeStatus == Right),
                         (m: ContactWithSwipe) => m.contact)
  {
    if contacts != [] {
      var keep := (m: ContactWithSwipe) => m.swipeStatus == Right;
      var strip := (m: ContactWithSwipe) => m.contact;
      var merged := Merge(contacts, swipes);
      assert merged[1..] == Merge(contacts[1..], swipes);
      MergeThenKeep(contacts[1..], swipes);
      var kept := if keep(merged[0]) then [merged[0]] else [];
      assert Lists.Filter(merged, keep) == kept + Lists.Filter(merged[1..], keep);
      Lists.MapAppend(kept, Lists.Filter(merged[1..], keep), strip);
    }
  }

  /** With nothing recorded, every contact reads as `pending` and nobody is accepted. */
  lemma NothingRecordedAllPending(contacts: seq<Contact>)
    ensures forall i :: 0 <= i < |contacts| ==> Merge(contacts, map[])[i].swipeStatus == Pending
    ensures RightSwipedReports(contacts, map[]) == []
  {
    Lists.FilterNone(contacts, (c: Contact) => StatusOf(map[], c.id.value) == Right);
  }

  /** Recording a decision for `id` makes it the status of `id` and changes no other id's status. */
  lemma RecordSetsStatus(swipes: map<string, SwipeData>, id: string, status: Decision, timestamp: string, other: string)
    ensures StatusOf(swipes[id := SwipeData(id, status, timestamp)], id) == status
    ensures other != id ==> StatusOf(swipes[id := SwipeData(id, status, timestamp)], other) == StatusOf(swipes, other)
  {
  }

  // ---------------------------------------------------------------------------
  // The swipe store

  /** Why a save did not persist. */
  datatype StorageError = SaveFailed

  /**
   * Local storage of the swipe map. `stored` is what the storage key holds:
   * `Some(m)` for a stored map (an absent key reads as the empty map, since
   * `loadSwipeData` yields `{}` for it), `None` for content that does not parse.
   * `readFails` and `writeFails` say whether the storage backend itself
   * currently fails to load or to save.
   */
  class SwipeStorage {
    var stored: Option<map<string, SwipeData>>
    var readFails: bool
    var writeFails: bool

    constructor (stored: Option<map<string, SwipeData>>, readFails: bool, writeFails: bool)
      ensures this.stored == stored && this.readFails == readFails && this.writeFails == writeFails
    {
      this.stored := stored;
      this.readFails := readFails;
      this.writeFails := writeFails;
    }

    /** Whether a load falls back to the empty map: the backend fails or the content does not parse. */
    predicate LoadFails()
      reads this
    {
      readFails || stored.None?
    }

    /** What a load yields: the stored map, or the empty map when loading fails. */
    function Loaded(): map<string, SwipeData>
      reads this
    {
      if LoadFails() then map[] else stored.value
    }

    /** `loadSwipeData`: fails open to the empty map. */
    method LoadSwipeData() returns (m: map<string, SwipeData>)
      ensures m == Loaded()
      ensures LoadFails() ==> m == map[]
      ensures !LoadFails() ==> m == stored.value
    {
      if readFails {
        m := map[];
      } else if stored.None? {
        m := map[];
      } else {
        m := stored.value;
      }
    }

    /** `saveSwipeData`: replaces the stored content with `m`, or reports the failure and keeps it. */
    method SaveSwipeData(m: map<string, SwipeData>) returns (res: Outcome<StorageError>)
      modifies this
      ensures readFails == old(readFails) && writeFails == old(writeFails)
      ensures res == if writeFails then Fail(SaveFailed) else Pass
      ensures stored == if writeFails then old(stored) else Some(m)
      ensures res.Pass? && !readFails ==> Loaded() == m
    {
      if writeFails {
        res := Fail(SaveFailed);
      } else {
        stored := Some(m);
        res := Pass;
      }
    }

    /**
     * `updateSwipeStatus`: load, record the decision for `contactId`, save.
     * A failed save is reported and changes nothing; otherwise the stored map is
     * the loaded one with the new record, so when the load failed the store keeps
     * only the new record, and unparseable content is replaced by a readable map.
     */
    method UpdateSwipeStatus(contactId: string, status: Decision, timestamp: string) returns (res: Outcome<StorageError>)
      modifies this
      ensures readFails == old(readFails) && writeFails == old(writeFails)
      ensures res == if writeFails then Fail(SaveFailed) else Pass
      ensures res.Pass? ==> stored == Some(old(Loaded())[contactId := SwipeData(contactId, status, timestamp)])
      ensures res.Pass? && !old(LoadFails()) ==>
                stored == Some(old(stored).value[contactId := SwipeData(contactId, status, timestamp)])
      ensures res.Pass? && old(LoadFails()) ==> stored == Some(map[contactId := SwipeData(contactId, status, timestamp)])
      ensures res.Fail? ==> stored == old(stored)
      ensures res.Pass? && !readFails ==>
                StatusOf(Loaded(), contactId) == status
                && forall id :: id != contactId ==> StatusOf(Loaded(), id) == StatusOf(old(Loaded()), id)
    {
      var swipeData := LoadSwipeData();
      ghost var before := swipeData;
      swipeData := swipeData[contactId := SwipeData(contactId, status, timestamp)];
      res := SaveSwipeData(swipeData);
      forall id | id != contactId
        ensures StatusOf(swipeData, id) == StatusOf(before, id)
      {
        RecordSetsStatus(before, contactId, status, timestamp, id);
      }
      RecordSetsStatus(before, contactId, status, timestamp, contactId);
    }

    /** `mergeContactsWithSwipes`: each contact with its loaded status, in input order. */
    method MergeContactsWithSwipes(contacts: seq<Contact>) returns (r: seq<ContactWithSwipe>)
      ensures |r| == |contacts|
      ensures forall i :: 0 <= i < |r| ==>
                r[i].contact == contacts[i] && r[i].swipeStatus == StatusOf(Loaded(), contacts[i].id.value)
      ensures LoadFails() ==> forall i :: 0 <= i < |r| ==> r[i].swipeStatus == Pending
    {
      var swipeData := LoadSwipeData();
      r := Merge(contacts, swipeData);
    }

    /** `getRightSwipedContacts`: the reports of the device contacts whose loaded status is `right`. */
    method GetRightSwipedContacts(granted: bool, data: seq<DeviceContact>)
      returns (r: Result<seq<ContactCompleteness>, string>)
      ensures !granted ==> r == Failure(PermissionRequired)
      ensures granted ==> r == Success(RightSwipedReports(WithIds(data), Loaded()))
      ensures granted && LoadFails() ==> r == Success([])
    {
      var loaded := LoadDeviceContacts(granted, data);
      if loaded.Failure? {
        return Failure(loaded.error);
      }
      var contacts := loaded.value;
      var swipeData := LoadSwipeData();
      NothingRecordedAllPending(contacts);
      var rightSwiped := Lists.Filter(contacts, (c: Contact) => StatusOf(swipeData, c.id.value) == Right);
      r := Success(Lists.Map(rightSwiped, Completeness));
    }
  }

  /**
   * Swiping a contact right and then left leaves it `left`: the last write
   * wins, and a failed save changes nothing and is reported.
   */
  method SwipeTwiceScenario(id: string, t1: string, t2: string)
    returns (afterFirst: SwipeStatus, afterSecond: SwipeStatus, failedSave: Outcome<StorageError>)
    ensures afterFirst == Right && afterSecond == Left
    ensures failedSave == Fail(SaveFailed)
  {
    var storage := new SwipeStorage(Some(map[]), false, false);
    var ok := storage.UpdateSwipeStatus(id, Right, t1);
    afterFirst := StatusOf(storage.Loaded(), id);
    ok := storage.UpdateSwipeStatus(id, Left, t2);
    afterSecond := StatusOf(storage.Loaded(), id);
    storage.writeFails := true;
    failedSave := storage.UpdateSwipeStatus(id, Right, t2);
    assert StatusOf(storage.Loaded(), id) == Left;
  }

  /**
   * Unparseable stored content is repaired by the next swipe: the load falls
   * back to the empty map, the save writes a readable map, and from then on
   * the contact reads as swiped.
   */
  method CorruptThenSwipeScenario(id: string, t: string)
    returns (before: seq<ContactWithSwipe>, after: seq<ContactWithSwipe>)
    ensures |before| == 1 && before[0].swipeStatus == Pending
    ensures |after| == 1 && after[0].swipeStatus == Right
  {
    var contact: Contact := DeviceContact(Some(id), "", None, None, None, None, None, None);
    var storage := new SwipeStorage(None, false, false);
    before := storage.MergeContactsWithSwipes([contact]);
    var ok := storage.UpdateSwipeStatus(id, Right, t);
    after := storage.MergeContactsWithSwipes([contact]);
  }
}
