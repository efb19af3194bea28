/** Bitwise xor of naturals, and of whole lists. */
module XorSum {
  function Xor(a: nat, b: nat): nat
    decreases a + b
  {
    if a == 0 && b == 0 then 0 else 2 * Xor(a / 2, b / 2) + (a + b) % 2
  }

  lemma {:induction false} XorComm(a: nat, b: nat)
    ensures Xor(a, b) == Xor(b, a)
    decreases a + b
  {
    if a != 0 || b != 0 {
      XorComm(a / 2, b / 2);
    }
  }

  lemma XorHalves(a: nat, b: nat)
    ensures Xor(a, b) / 2 == Xor(a / 2, b / 2) && Xor(a, b) % 2 == (a + b) % 2
  {
  }

  lemma SameHalves(x: nat, y: nat)
    requires x / 2 == y / 2 && x % 2 == y % 2
    ensures x == y
  {
  }

  lemma ParityAssoc(ab: nat, bc: nat, a: nat, b: nat, c: nat)
    requires ab % 2 == (a + b) % 2 && bc % 2 == (b + c) % 2
    ensures (ab + c) % 2 == (a + bc) % 2
  {
  }

  lemma {:induction false} XorAssoc(a: nat, b: nat, c: nat)
    ensures Xor(Xor(a, b), c) == Xor(a, Xor(b, c))
    decreases a + b + c
  {
    if a != 0 || b != 0 || c != 0 {
      var ab, bc := Xor(a, b), Xor(b, c);
      XorHalves(a, b);
      XorHalves(b, c);
      XorAssoc(a / 2, b / 2, c / 2);
      XorHalves(ab, c);
      XorHalves(a, bc);
      ParityAssoc(ab, bc, a, b, c);
      SameHalves(Xor(ab, c), Xor(a, bc));
    }
  }

  lemma {:induction false} XorSelf(a: nat)
    ensures Xor(a, a) == 0
  {
    if a != 0 {
      XorSelf(a / 2);
    }
  }

  lemma {:induction false} XorZero(a: nat)
    ensures Xor(a, 0) == a
  {
    if a != 0 {
      XorZero(a / 2);
    }
  }

  function XorAll(s: seq<nat>): nat {
    if s == [] then 0 else Xor(XorAll(s[..|s| - 1]), s[|s| - 1])
  }

  lemma {:induction false} XorAppend(s: seq<nat>, t: seq<nat>)
    ensures XorAll(s + t) == Xor(XorAll(s), XorAll(t))
  {
    if t == [] {
      assert s + t == s;
      XorZero(XorAll(s));
    } else {
      var n := |t| - 1;
      assert (s + t)[..|s + t| - 1] == s + t[..n];
      XorAppend(s, t[..n]);
      XorAssoc(XorAll(s), XorAll(t[..n]), t[n]);
    }
  }

  lemma XorMiddle(a: nat, x: nat, b: nat)
    ensures Xor(Xor(a, x), b) == Xor(Xor(a, b), x)
  {
    XorAssoc(a, x, b);
    XorComm(x, b);
    XorAssoc(a, b, x);
  }

  /** Taking out one occurrence. */
  lemma XorWithout(s: seq<nat>, i: nat)
    requires i < |s|
    ensures XorAll(s) == Xor(XorAll(s[..i] + s[i + 1..]), s[i])
  {
    var l, r, x := s[..i], s[i + 1..], s[i];
    assert s == l + [x] + r;
    XorAppend(l + [x], r);
    XorAppend(l, r);
    assert (l + [x])[..|l|] == l;
    XorMiddle(XorAll(l), x, XorAll(r));
  }

  ghost function Count(s: seq<nat>, x: nat): nat { multiset(s)[x] }

  ghost predicate EvenCounts(s: seq<nat>) {
    forall x: nat :: EvenAt(s, x)
  }

  ghost predicate EvenAt(s: seq<nat>, x: nat) { Count(s, x) % 2 == 0 }

  lemma CountWithout(s: seq<nat>, i: nat, x: nat)
    requires i < |s|
    ensures Count(s, x) == Count(s[..i] + s[i + 1..], x) + if x == s[i] then 1 else 0
  {
    assert s == s[..i] + [s[i]] + s[i + 1..];
  }

  /** The last value of such a list occurs before, and both can be taken out. */
  lemma EvenPair(s: seq<nat>) returns (i: nat)
    requires EvenCounts(s) && s != []
    ensures i < |s| - 1 && s[i] == s[|s| - 1]
    ensures EvenCounts(s[..|s| - 1][..i] + s[..|s| - 1][i + 1..])
  {
    var n := |s| - 1;
    var x, t := s[n], s[..n];
    assert t + s[n + 1..] == t;
    CountWithout(s, n, x);
    assert EvenAt(s, x);
    assert x in t;
    i :| 0 <= i < n && t[i] == x;
    var rest: seq<nat> := t[..i] + t[i + 1..];
    forall y: nat
      ensures EvenAt(rest, y)
    {
      CountWithout(s, n, y);
      CountWithout(t, i, y);
      assert EvenAt(s, y);
    }
  }

  /** A list in which every value occurs an even number of times sums to zero. */
  lemma {:induction false} EvenIsZero(s: seq<nat>)
    requires EvenCounts(s)
    ensures XorAll(s) == 0
    decreases |s|
  {
    if s != [] {
      var n := |s| - 1;
      var i := EvenPair(s);
      var rest := s[..n][..i] + s[..n][i + 1..];
      XorWithout(s[..n], i);
      EvenIsZero(rest);
      XorAssoc(XorAll(rest), s[n], s[n]);
      XorSelf(s[n]);
      XorZero(XorAll(rest));
    }
  }
}
