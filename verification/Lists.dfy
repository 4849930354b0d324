/** Lists of names without repetition, and deleting names from them as `erase(remove(...))` does. */
module Lists {

  ghost predicate NoDuplicates(s: seq<string>) {
    forall i, j | 0 <= i < j < |s| :: s[i] != s[j]
  }

  /** The elements of `s` outside `S`, in order. */
  function Keep(s: seq<string>, S: set<string>): seq<string> {
    if s == [] then []
    else if s[0] in S then Keep(s[1..], S)
    else [s[0]] + Keep(s[1..], S)
  }

  lemma {:induction false} KeepMembers(s: seq<string>, S: set<string>)
    ensures forall x :: x in Keep(s, S) <==> x in s && x !in S
    ensures NoDuplicates(s) ==> NoDuplicates(Keep(s, S))
  {
    if s != [] {
      KeepMembers(s[1..], S);
      assert s == [s[0]] + s[1..];
      if NoDuplicates(s) {
        assert NoDuplicates(s[1..]) && s[0] !in s[1..];
      }
    }
  }

  lemma {:induction false} KeepTwice(s: seq<string>, A: set<string>, B: set<string>)
    ensures Keep(Keep(s, A), B) == Keep(s, A + B)
  {
    if s != [] {
      KeepTwice(s[1..], A, B);
      if s[0] !in A {
        assert Keep(s, A)[1..] == Keep(s[1..], A);
      }
    }
  }

  lemma {:induction false} KeepExtremes(s: seq<string>, S: set<string>)
    ensures (forall x | x in s :: x !in S) ==> Keep(s, S) == s
    ensures (forall x | x in s :: x in S) ==> Keep(s, S) == []
  {
    if s != [] {
      assert s == [s[0]] + s[1..];
      KeepExtremes(s[1..], S);
    }
  }

  lemma {:induction false} KeepSame(s: seq<string>, A: set<string>, B: set<string>)
    requires forall x | x in s :: x in A <==> x in B
    ensures Keep(s, A) == Keep(s, B)
  {
    if s != [] {
      assert s == [s[0]] + s[1..];
      KeepSame(s[1..], A, B);
    }
  }

  lemma {:induction false} KeepGrows(s: seq<string>, x: string, S: set<string>)
    ensures Keep(s + [x], S) == if x in S then Keep(s, S) else Keep(s, S) + [x]
    decreases |s|
  {
    if s != [] {
      assert (s + [x])[1..] == s[1..] + [x];
      KeepGrows(s[1..], x, S);
    }
  }

  lemma {:induction false} CountOfListed(s: seq<string>, x: string)
    requires NoDuplicates(s)
    ensures multiset(s)[x] == if x in s then 1 else 0
  {
    if s != [] {
      assert s == [s[0]] + s[1..];
      assert s[0] !in s[1..];
      CountOfListed(s[1..], x);
    }
  }
}
