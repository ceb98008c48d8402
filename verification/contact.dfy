/**
 * Turning a client's stored phone number into a messaging address
 * (`telefone.replace(/\D/g, '')` followed by the network suffix).
 */
module Contact {

  /** The class `\d` of a JavaScript regular expression: ASCII digits only. */
  predicate IsDigit(c: char) {
    '0' <= c <= '9'
  }

  predicate AllDigits(s: string) {
    forall i :: 0 <= i < |s| ==> IsDigit(s[i])
  }

  /** The user-address suffix of the messaging network. */
  const Suffix: string := "@s.whatsapp.net"

  /** r can be obtained from s by deleting characters, keeping the order of the rest. */
  predicate IsSubsequence(r: string, s: string)
    decreases |s|
  {
    if r == [] then true
    else if s == [] then false
    else (r[0] == s[0] && IsSubsequence(r[1..], s[1..])) || IsSubsequence(r, s[1..])
  }

  /** Every character of s matched by `\D` removed: the digits of s, in their order. */
  function Digits(s: string): (r: string)
    ensures AllDigits(r)
    ensures |r| <= |s|
  {
    if s == [] then []
    else if IsDigit(s[0]) then [s[0]] + Digits(s[1..])
    else Digits(s[1..])
  }

  /** Digits(s) keeps the order of s and loses no digit of it. */
  lemma {:induction false} DigitsKeepsOrderAndCount(s: string)
    ensures IsSubsequence(Digits(s), s)
    ensures forall c :: IsDigit(c) ==> multiset(Digits(s))[c] == multiset(s)[c]
  {
    if s != [] {
      assert s == [s[0]] + s[1..];
      DigitsKeepsOrderAndCount(s[1..]);
      if IsDigit(s[0]) {
        assert Digits(s)[1..] == Digits(s[1..]);
      }
    }
  }

  /** The address a reminder is sent to: the phone's digits followed by the suffix. */
  function Normalise(phone: string): (r: string)
    ensures |r| == |Digits(phone)| + |Suffix|
    ensures AllDigits(r[..|r| - |Suffix|])
    ensures r[|r| - |Suffix|..] == Suffix
  {
    Digits(phone) + Suffix
  }

  /** The same removal written as the left-to-right scan a `replace` performs. */
  method StripNonDigits(s: string) returns (r: string)
    ensures r == Digits(s)
  {
    r := "";
    var i := 0;
    while i < |s|
      invariant 0 <= i <= |s|
      invariant r == Digits(s[..i])
    {
      assert s[..i + 1] == s[..i] + [s[i]];
      DigitsAppend(s[..i], [s[i]]);
      if IsDigit(s[i]) {
        r := r + [s[i]];
      }
      i := i + 1;
    }
    assert s[..|s|] == s;
  }

  /** Removing non-digits distributes over concatenation. */
  lemma {:induction false} DigitsAppend(a: string, b: string)
    ensures Digits(a + b) == Digits(a) + Digits(b)
  {
    if a == [] {
      assert a + b == b;
    } else {
      assert (a + b)[1..] == a[1..] + b;
      assert (a + b)[0] == a[0];
      DigitsAppend(a[1..], b);
    }
  }

  /** A phone that is already all digits only gets the suffix; and only such a phone does. */
  lemma {:induction false} DigitsFixpoint(s: string)
    ensures Digits(s) == s <==> AllDigits(s)
  {
    if s != [] {
      DigitsFixpoint(s[1..]);
    }
  }

  lemma NormaliseAllDigits(phone: string)
    requires AllDigits(phone)
    ensures Normalise(phone) == phone + Suffix
  {
    DigitsFixpoint(phone);
  }

  lemma {:induction false} SubsequenceMultiset(r: string, s: string)
    requires IsSubsequence(r, s)
    ensures multiset(r) <= multiset(s)
    decreases |s|
  {
    if r != [] {
      assert s == [s[0]] + s[1..];
      if r[0] == s[0] && IsSubsequence(r[1..], s[1..]) {
        assert r == [r[0]] + r[1..];
        SubsequenceMultiset(r[1..], s[1..]);
      } else {
        SubsequenceMultiset(r, s[1..]);
      }
    }
  }

  /**
   * Digits(s) is the only all-digit subsequence of s that keeps every digit of s:
   * the address depends on the phone's digits and their order, and on nothing else.
   */
  lemma {:induction false} DigitsCharacterisation(r: string, s: string)
    ensures r == Digits(s) <==>
      AllDigits(r) && IsSubsequence(r, s) && forall c :: IsDigit(c) ==> multiset(r)[c] == multiset(s)[c]
    decreases |s|
  {
    DigitsKeepsOrderAndCount(s);
    if AllDigits(r) && IsSubsequence(r, s) && forall c :: IsDigit(c) ==> multiset(r)[c] == multiset(s)[c] {
      DigitsUnique(r, s);
    }
  }

  lemma {:induction false} DigitsUnique(r: string, s: string)
    requires AllDigits(r) && IsSubsequence(r, s)
    requires forall c :: IsDigit(c) ==> multiset(r)[c] == multiset(s)[c]
    ensures r == Digits(s)
    decreases |s|
  {
    if s == [] {
    } else {
      assert s == [s[0]] + s[1..];
      var c := s[0];
      if IsDigit(c) {
        assert multiset(r)[c] == multiset(s)[c] >= 1;
        assert r != [];
        if r[0] == c && IsSubsequence(r[1..], s[1..]) {
          assert r == [r[0]] + r[1..];
          forall d | IsDigit(d)
            ensures multiset(r[1..])[d] == multiset(s[1..])[d]
          {
          }
          DigitsUnique(r[1..], s[1..]);
        } else {
          SubsequenceMultiset(r, s[1..]);
          assert false;
        }
      } else {
        if r != [] {
          assert r[0] != c by { assert IsDigit(r[0]); }
          assert IsSubsequence(r, s[1..]);
        }
        DigitsUnique(r, s[1..]);
      }
    }
  }

  /** Two phone numbers reach the same address exactly when they have the same digits. */
  lemma NormaliseSameAddress(a: string, b: string)
    ensures Normalise(a) == Normalise(b) <==> Digits(a) == Digits(b)
  {
    if Normalise(a) == Normalise(b) {
      assert Digits(a) == Normalise(a)[..|Digits(a)|];
    }
  }

  /** The formatted number (11) 98888-7777 reaches its digits-only address. */
  lemma NormaliseExample(phone: string)
    requires phone == "(11) 98888-7777"
    ensures Normalise(phone) == "11988887777@s.whatsapp.net"
  {
    ExampleDigits(phone);
    AddressJoin();
  }

  lemma ExampleDigits(phone: string)
    requires phone == "(11) " + "98888" + "-7777"
    ensures Digits(phone) == "11988887777"
  {
    var area, number, line := "(11) ", "98888", "-7777";
    DigitsAppend(area, number);
    AreaCodeDigits();
    DigitsFixpoint(number);
    assert Digits(area + number) == "11" + number;
    DigitsAppend(area + number, line);
    LineDigits();
    assert Digits(phone) == ("11" + number) + "7777";
    ExampleJoin();
  }

  lemma AddressJoin()
    ensures "11988887777" + Suffix == "11988887777@s.whatsapp.net"
  {
  }

  lemma ExampleJoin()
    ensures ("11" + "98888") + "7777" == "11988887777"
  {
  }

  lemma AreaCodeDigits()
    ensures Digits("(11) ") == "11"
  {
  }

  lemma LineDigits()
    ensures Digits("-7777") == "7777"
  {
  }
}
