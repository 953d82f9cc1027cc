/** Optional values, and lists as sequences of entries that are known by a number. */
module Lists {
  datatype Option<T> = None | Some(value: T)

  predicate NoDup(l: seq<nat>)
  {
    forall i, j | 0 <= i < j < |l| :: l[i] != l[j]
  }

  /** The list without its first entry h. */
  function Remove(l: seq<nat>, h: nat): (r: seq<nat>)
    ensures |r| == if h in l then |l| - 1 else |l|
    ensures forall x :: x in r ==> x in l
    ensures forall x | x != h :: x in l ==> x in r
  {
    if l == [] then [] else if l[0] == h then l[1..] else [l[0]] + Remove(l[1..], h)
  }

  lemma {:induction false} RemoveNoDup(l: seq<nat>, h: nat)
    requires NoDup(l)
    ensures NoDup(Remove(l, h)) && h !in Remove(l, h)
  {
    if l != [] {
      assert NoDup(l[1..]) by { assert forall i | 0 <= i < |l| - 1 :: l[1..][i] == l[i + 1]; }
      assert l[0] !in l[1..];
      RemoveNoDup(l[1..], h);
      if l[0] != h {
        var r := Remove(l[1..], h);
        assert l[0] !in r;
        assert forall i | 0 < i < |r| + 1 :: ([l[0]] + r)[i] == r[i - 1];
      }
    }
  }

  /** The place of h in l, which is where Remove takes it out. */
  lemma {:induction false} Place(l: seq<nat>, h: nat) returns (k: nat)
    requires h in l
    ensures k < |l| && l[k] == h && Remove(l, h) == l[..k] + l[k + 1..]
  {
    if l[0] == h {
      k := 0;
    } else {
      k := Place(l[1..], h);
      k := k + 1;
    }
  }

  lemma RemoveFirst(l: seq<nat>)
    requires l != []
    ensures Remove(l, l[0]) == l[1..]
  {
  }

  lemma {:induction false} RemoveAbsent(l: seq<nat>, h: nat)
    requires h !in l
    ensures Remove(l, h) == l
  {
    if l != [] { RemoveAbsent(l[1..], h); }
  }
}
