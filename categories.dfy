/**
 * The arithmetic both completeness evaluators share: a fixed vector of
 * category flags, the number of satisfied categories
 * (`fields.filter(Boolean).length`), the percentage
 * `(completedFields / fields.length) * 100`, and the list of missing category
 * names, kept in the categories' declaration order.
 */
module Categories {

  /** How many flags are set. */
  function CountTrue(flags: seq<bool>): (n: nat)
    ensures n <= |flags|
    ensures n == |flags| <==> forall i :: 0 <= i < |flags| ==> flags[i]
    ensures n == 0 <==> forall i :: 0 <= i < |flags| ==> !flags[i]
  {
    if flags == [] then 0
    else (if flags[0] then 1 else 0) + CountTrue(flags[1..])
  }

  /** The names whose flag is not set, in the order of `names`. */
  function Missing(names: seq<string>, flags: seq<bool>): (r: seq<string>)
    requires |names| == |flags|
    ensures |r| <= |flags|
    ensures forall k :: 0 <= k < |r| ==> r[k] in names
  {
    if flags == [] then []
    else (if flags[0] then [] else [names[0]]) + Missing(names[1..], flags[1..])
  }

  /** `(completed / total) * 100`, as JavaScript computes it on exact values. */
  function Percentage(completed: nat, total: nat): real
    requires 0 < total
  {
    (completed as real / total as real) * 100.0
  }

  /** No name occurs twice. */
  predicate Distinct(names: seq<string>)
  {
    forall i, j :: 0 <= i < j < |names| ==> names[i] != names[j]
  }

  /** The position of `n` in `names`. */
  function IndexOf(names: seq<string>, n: string): (k: nat)
    requires n in names
    ensures k < |names| && names[k] == n
    ensures forall j :: 0 <= j < k ==> names[j] != n
  {
    if names[0] == n then 0 else 1 + IndexOf(names[1..], n)
  }

  /** The missing names and the satisfied categories together are all the categories. */
  lemma {:induction false} MissingCount(names: seq<string>, flags: seq<bool>)
    requires |names| == |flags|
    ensures |Missing(names, flags)| + CountTrue(flags) == |flags|
  {
    if flags != [] {
      MissingCount(names[1..], flags[1..]);
    }
  }

  /** A name is reported missing exactly when some category of that name is unsatisfied. */
  lemma {:induction false} MissingMembership(names: seq<string>, flags: seq<bool>, n: string)
    requires |names| == |flags|
    ensures n in Missing(names, flags) <==> exists i :: 0 <= i < |flags| && names[i] == n && !flags[i]
  {
    if flags != [] {
      MissingMembership(names[1..], flags[1..], n);
      if n in Missing(names[1..], flags[1..]) {
        var i :| 0 <= i < |flags| - 1 && names[1..][i] == n && !flags[1..][i];
        assert names[i + 1] == n && !flags[i + 1];
      }
      if exists i :: 0 <= i < |flags| && names[i] == n && !flags[i] {
        var i :| 0 <= i < |flags| && names[i] == n && !flags[i];
        if i > 0 {
          assert names[1..][i - 1] == n && !flags[1..][i - 1];
        }
      }
    }
  }

  /** The missing names appear in the categories' declaration order. */
  lemma {:induction false} MissingInOrder(names: seq<string>, flags: seq<bool>)
    requires |names| == |flags| && Distinct(names)
    ensures forall i, j :: 0 <= i < j < |Missing(names, flags)| ==>
              IndexOf(names, Missing(names, flags)[i]) < IndexOf(names, Missing(names, flags)[j])
  {
    if flags != [] {
      var tail := Missing(names[1..], flags[1..]);
      MissingInOrder(names[1..], flags[1..]);
      forall k | 0 <= k < |tail|
        ensures tail[k] != names[0] && IndexOf(names, tail[k]) == 1 + IndexOf(names[1..], tail[k])
      {
        var m := IndexOf(names[1..], tail[k]);
        assert names[m + 1] == tail[k];
      }
    }
  }

  /** The missing list is built category by category: it distributes over concatenation. */
  lemma {:induction false} MissingAppend(n1: seq<string>, f1: seq<bool>, n2: seq<string>, f2: seq<bool>)
    requires |n1| == |f1| && |n2| == |f2|
    ensures Missing(n1 + n2, f1 + f2) == Missing(n1, f1) + Missing(n2, f2)
  {
    if f1 != [] {
      assert (n1 + n2)[1..] == n1[1..] + n2;
      assert (f1 + f2)[1..] == f1[1..] + f2;
      MissingAppend(n1[1..], f1[1..], n2, f2);
    } else {
      assert n1 + n2 == n2 && f1 + f2 == f2;
    }
  }

  /** One more category: its name is appended exactly when its flag is unset. */
  lemma MissingPush(names: seq<string>, flags: seq<bool>, n: string, f: bool)
    requires |names| == |flags|
    ensures Missing(names + [n], flags + [f]) == Missing(names, flags) + (if f then [] else [n])
  {
    MissingAppend(names, flags, [n], [f]);
    assert Missing([n], [f]) == (if f then [] else [n]) + Missing([], []);
  }

  /** Examining category `k` extends the missing list of the first `k` categories by at most its name. */
  lemma MissingPrefix(names: seq<string>, flags: seq<bool>, k: nat, m: seq<string>)
    requires |names| == |flags| && k < |flags|
    requires m == Missing(names[..k], flags[..k])
    ensures Missing(names[..k + 1], flags[..k + 1]) == m + (if flags[k] then [] else [names[k]])
  {
    assert names[..k + 1] == names[..k] + [names[k]];
    assert flags[..k + 1] == flags[..k] + [flags[k]];
    MissingPush(names[..k], flags[..k], names[k], flags[k]);
  }

  /** Of four categories, the missing list is the four conditional pushes in order. */
  lemma MissingOfFour(names: seq<string>, flags: seq<bool>)
    requires |names| == |flags| == 4
    ensures Missing(names, flags)
            == (if flags[0] then [] else [names[0]]) + (if flags[1] then [] else [names[1]])
               + (if flags[2] then [] else [names[2]]) + (if flags[3] then [] else [names[3]])
  {
    MissingPrefix(names, flags, 0, []);
    MissingPrefix(names, flags, 1, Missing(names[..1], flags[..1]));
    MissingPrefix(names, flags, 2, Missing(names[..2], flags[..2]));
    MissingPrefix(names, flags, 3, Missing(names[..3], flags[..3]));
    assert names[..4] == names && flags[..4] == flags;
  }

  /** With no category satisfied, every name is missing, in declaration order. */
  lemma {:induction false} MissingAll(names: seq<string>, flags: seq<bool>)
    requires |names| == |flags|
    requires forall i :: 0 <= i < |flags| ==> !flags[i]
    ensures Missing(names, flags) == names
  {
    if flags != [] {
      MissingAll(names[1..], flags[1..]);
    }
  }

  /** Of four categories, the percentage is 25 per satisfied one. */
  lemma PercentageOfFour(completed: nat)
    requires completed <= 4
    ensures Percentage(completed, 4) == 25.0 * completed as real
    ensures Percentage(completed, 4) in {0.0, 25.0, 50.0, 75.0, 100.0}
    ensures Percentage(completed, 4) == 100.0 <==> completed == 4
  {
  }
}
