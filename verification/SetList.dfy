/** The unhashed sets of utils/src/set.c: linked lists that grow at the front. */
module SetList {
  import opened Wrappers

  function Reverse<T>(s: seq<T>): (r: seq<T>)
    ensures |r| == |s|
  {
    if s == [] then [] else Reverse(s[1..]) + [s[0]]
  }

  lemma {:induction false} ReverseNone<T>()
    ensures Reverse<T>([]) == []
  {}

  lemma {:induction false} ReverseAt<T>(s: seq<T>, k: nat)
    requires k < |s|
    ensures Reverse(s)[k] == s[|s| - 1 - k]
  {
    if k < |s| - 1 { ReverseAt(s[1..], k); }
  }

  /** Prepending a list element by element twice restores its order. */
  lemma {:induction false} ReverseTwice<T>(s: seq<T>)
    ensures Reverse(Reverse(s)) == s
  {
    forall k | 0 <= k < |s| ensures Reverse(Reverse(s))[k] == s[k] {
      ReverseAt(Reverse(s), k);
      ReverseAt(s, |s| - 1 - k);
    }
  }

  /** Prepending the next element of a list to the reversal of those before it. */
  lemma {:induction false} ReverseSnoc<T>(s: seq<T>, x: T)
    ensures Reverse(s + [x]) == [x] + Reverse(s)
  {
    var l, r := Reverse(s + [x]), [x] + Reverse(s);
    forall k | 0 <= k < |l| ensures l[k] == r[k] {
      ReverseAt(s + [x], k);
      if k > 0 { ReverseAt(s, k - 1); }
    }
  }

  /** The first of the remaining elements joins those already taken. */
  lemma {:induction false} Regroup<T>(done: seq<T>, x: T, left: seq<T>)
    ensures done + ([x] + left) == (done + [x]) + left
  {}

  function Map<T, U>(f: T -> U, s: seq<T>): (r: seq<U>)
    ensures |r| == |s| && forall i :: 0 <= i < |s| ==> r[i] == f(s[i])
  {
    seq(|s|, i requires 0 <= i < |s| => f(s[i]))
  }

  class SetObj<T(==)> {
    var members: seq<T>
    var length: nat
    var timestamp: nat

    ghost predicate Valid()
      reads this
    {
      length == |members|
    }

    constructor ()
      ensures Valid() && members == [] && timestamp == 0
    {
      members, length, timestamp := [], 0, 0;
    }

    method Put(member: T)
      requires Valid()
      modifies this
      ensures Valid() && members == [member] + old(members) && timestamp == old(timestamp) + 1
    {
      members := [member] + members;
      length := length + 1;
      timestamp := timestamp + 1;
    }

    /** Member i counted from the front; nothing behind the end. */
    function Get(i: nat): (r: Option<T>)
      reads this
      ensures r.Some? <==> i < |members|
      ensures r.Some? ==> r.value == members[i]
    {
      if i < |members| then Some(members[i]) else None
    }

    /** Takes out the frontmost occurrence of a member. */
    method Remove(member: T) returns (found: bool)
      requires Valid()
      modifies this
      ensures Valid() && timestamp == old(timestamp) + 1
      ensures found <==> member in old(members)
      ensures !found ==> members == old(members)
      ensures found ==> exists i :: (0 <= i < |old(members)| && old(members)[i] == member
                                     && member !in old(members)[..i]
                                     && members == old(members)[..i] + old(members)[i + 1..])
    {
      timestamp := timestamp + 1;
      var i := 0;
      while i < |members|
        invariant 0 <= i <= |members| && member !in members[..i]
        invariant members == old(members) && length == old(length)
      {
        if members[i] == member {
          members := members[..i] + members[i + 1..];
          length := length - 1;
          return true;
        }
        i := i + 1;
      }
      return false;
    }

    method Clear()
      requires Valid()
      modifies this`members, this`length
      ensures Valid() && members == []
    {
      if length > 0 {
        members := [];
        length := 0;
      }
    }

    /** A copy of every member, in reversed order. */
    method Dup<U(==)>(elemDup: T -> U) returns (r: SetObj<U>)
      requires Valid()
      ensures fresh(r) && r.Valid() && r.members == Reverse(Map(elemDup, members))
    {
      r := new SetObj<U>();
      var i := 0;
      assert Map(elemDup, members[..0]) == [];
      while i < |members|
        invariant 0 <= i <= |members| && r.Valid() && fresh(r)
        invariant r.members == Reverse(Map(elemDup, members[..i]))
      {
        ReverseSnoc(Map(elemDup, members[..i]), elemDup(members[i]));
        assert Map(elemDup, members[..i + 1]) == Map(elemDup, members[..i]) + [elemDup(members[i])];
        r.members := [elemDup(members[i])] + r.members;
        r.length := r.length + 1;
        i := i + 1;
      }
      assert members[..|members|] == members;
    }
  }
}
