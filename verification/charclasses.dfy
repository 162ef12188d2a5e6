/** The character classes a search may draw on, and the alphabet built from
    the selected class names (app.py, generate_passwords). */
module CharClasses {
  import opened Seqs

  /** The run of characters whose code points go from lo up to, but not
      including, hi. */
  function Span(lo: nat, hi: nat): (s: string)
    requires lo <= hi <= 0xD800
    ensures |s| == hi - lo
    ensures forall i :: 0 <= i < |s| ==> s[i] as int == lo + i
  {
    seq(hi - lo, i requires 0 <= i < hi - lo => (lo + i) as char)
  }

  /** Python's string.digits, string.ascii_lowercase, string.ascii_uppercase
      and string.punctuation, each in the library's own order. */
  const Digits: string := Span(0x30, 0x3A)
  const Lowercase: string := Span(0x61, 0x7B)
  const Uppercase: string := Span(0x41, 0x5B)
  const Punctuation: string :=
    Span(0x21, 0x30) + Span(0x3A, 0x41) + Span(0x5B, 0x61) + Span(0x7B, 0x7F)

  predicate IsDigit(c: char) { '0' <= c <= '9' }
  predicate IsLower(c: char) { 'a' <= c <= 'z' }
  predicate IsUpper(c: char) { 'A' <= c <= 'Z' }
  predicate IsPunctuation(c: char) {
    ('!' <= c <= '/') || (':' <= c <= '@') || ('[' <= c <= '`') || ('{' <= c <= '~')
  }

  /** The position of a character's class in the concatenation order:
      digits, lower case, upper case, then punctuation. */
  function Rank(c: char): nat {
    if IsDigit(c) then 0 else if IsLower(c) then 1 else if IsUpper(c) then 2 else 3
  }

  /** x comes before y in an alphabet: an earlier class, or the same class
      and a smaller code point. */
  predicate Precedes(x: char, y: char) {
    Rank(x) < Rank(y) || (Rank(x) == Rank(y) && x < y)
  }

  predicate Ordered(s: string) {
    forall i, j :: 0 <= i < j < |s| ==> Precedes(s[i], s[j])
  }

  /** No class name that adds characters is present, so the fallback applies. */
  predicate NoneSelected(charSet: seq<string>) {
    "numeric" !in charSet && "lowercase" !in charSet
    && "uppercase" !in charSet && "special" !in charSet
  }

  /** Whether c belongs to the alphabet the class names select, stated class
      by class rather than by concatenation. */
  predicate Admits(charSet: seq<string>, c: char) {
    if NoneSelected(charSet) then IsDigit(c) || IsLower(c) || IsUpper(c)
    else
      ("numeric" in charSet && IsDigit(c))
      || ("lowercase" in charSet && IsLower(c))
      || ("uppercase" in charSet && IsUpper(c))
      || ("special" in charSet && IsPunctuation(c))
  }

  function Pick(on: bool, chars: string): string {
    if on then chars else ""
  }

  /** The alphabet generate_passwords builds: the selected classes
      concatenated in a fixed order, or digits and ASCII letters when no
      known class name is present. Names other than the four are ignored. */
  function Alphabet(charSet: seq<string>): (a: string)
    ensures |a| > 0
    ensures forall c :: c in a <==> Admits(charSet, c)
    ensures Ordered(a)
  {
    ClassFacts();
    var chosen :=
      Pick("numeric" in charSet, Digits) + Pick("lowercase" in charSet, Lowercase)
      + Pick("uppercase" in charSet, Uppercase) + Pick("special" in charSet, Punctuation);
    OrderedChain(Pick("numeric" in charSet, Digits), Pick("lowercase" in charSet, Lowercase),
                 Pick("uppercase" in charSet, Uppercase), Pick("special" in charSet, Punctuation));
    OrderedChain(Digits, Lowercase, Uppercase, "");
    assert Digits + Lowercase + Uppercase + "" == Digits + Lowercase + Uppercase;
    if chosen == "" then
      assert NoneSelected(charSet);
      Digits + Lowercase + Uppercase
    else
      chosen
  }

  /** Membership, rank and order facts about the four class constants. */
  lemma ClassFacts()
    ensures forall c :: c in Digits <==> IsDigit(c)
    ensures forall c :: c in Lowercase <==> IsLower(c)
    ensures forall c :: c in Uppercase <==> IsUpper(c)
    ensures forall c :: c in Punctuation <==> IsPunctuation(c)
    ensures forall c :: c in Digits ==> Rank(c) == 0
    ensures forall c :: c in Lowercase ==> Rank(c) == 1
    ensures forall c :: c in Uppercase ==> Rank(c) == 2
    ensures forall c :: c in Punctuation ==> Rank(c) == 3
    ensures Ordered(Digits) && Ordered(Lowercase) && Ordered(Uppercase) && Ordered(Punctuation)
  {
    LetterFacts();
    PunctuationFacts();
  }

  lemma LetterFacts()
    ensures forall c :: c in Digits <==> IsDigit(c)
    ensures forall c :: c in Lowercase <==> IsLower(c)
    ensures forall c :: c in Uppercase <==> IsUpper(c)
    ensures forall c :: c in Digits ==> Rank(c) == 0
    ensures forall c :: c in Lowercase ==> Rank(c) == 1
    ensures forall c :: c in Uppercase ==> Rank(c) == 2
    ensures Ordered(Digits) && Ordered(Lowercase) && Ordered(Uppercase)
  {
    SpanMembers(0x30, 0x3A);
    SpanMembers(0x61, 0x7B);
    SpanMembers(0x41, 0x5B);
  }

  lemma PunctuationFacts()
    ensures forall c :: c in Punctuation <==> IsPunctuation(c)
    ensures forall c :: c in Punctuation ==> Rank(c) == 3
    ensures Ordered(Punctuation)
  {
    var p1, p2, p3, p4 := Span(0x21, 0x30), Span(0x3A, 0x41), Span(0x5B, 0x61), Span(0x7B, 0x7F);
    assert Punctuation == p1 + (p2 + (p3 + p4));
    PunctuationSpan(0x21, 0x30);
    PunctuationSpan(0x3A, 0x41);
    PunctuationSpan(0x5B, 0x61);
    PunctuationSpan(0x7B, 0x7F);
    OrderedAppend(p3, p4);
    OrderedAppend(p2, p3 + p4);
    OrderedAppend(p1, p2 + (p3 + p4));
    forall c | IsPunctuation(c)
      ensures c in Punctuation
    {
      if c as int < 0x30 {
        assert c in p1;
      } else if c as int < 0x41 {
        assert c in p2;
      } else if c as int < 0x61 {
        assert c in p3;
      } else {
        assert c in p4;
      }
    }
  }

  /** One of the four runs string.punctuation is made of. */
  predicate PunctuationRun(lo: nat, hi: nat) {
    (lo == 0x21 && hi == 0x30) || (lo == 0x3A && hi == 0x41)
    || (lo == 0x5B && hi == 0x61) || (lo == 0x7B && hi == 0x7F)
  }

  lemma PunctuationSpan(lo: nat, hi: nat)
    requires PunctuationRun(lo, hi)
    ensures forall c :: c in Span(lo, hi) <==> lo <= c as int < hi
    ensures forall c :: c in Span(lo, hi) ==> IsPunctuation(c) && Rank(c) == 3
    ensures Ordered(Span(lo, hi))
  {
    SpanMembers(lo, hi);
  }

  lemma SpanMembers(lo: nat, hi: nat)
    requires lo <= hi <= 0xD800
    ensures forall c :: c in Span(lo, hi) <==> lo <= c as int < hi
    ensures forall i, j :: 0 <= i < j < hi - lo ==> Span(lo, hi)[i] < Span(lo, hi)[j]
  {
    var s := Span(lo, hi);
    forall c | lo <= c as int < hi
      ensures c in s
    {
      assert s[c as int - lo] == c;
    }
  }

  /** Joining two ordered strings, every character of the first preceding
      every character of the second, gives an ordered string. */
  lemma OrderedAppend(s: string, t: string)
    requires Ordered(s) && Ordered(t)
    requires forall x, y :: x in s && y in t ==> Precedes(x, y)
    ensures Ordered(s + t)
  {
    var u := s + t;
    forall i, j | 0 <= i < j < |u|
      ensures Precedes(u[i], u[j])
    {
      if j < |s| {
        assert u[i] == s[i] && u[j] == s[j];
      } else if i >= |s| {
        assert u[i] == t[i - |s|] && u[j] == t[j - |s|];
      } else {
        assert u[i] in s && u[j] in t;
      }
    }
  }

  /** Four optional class strings of ranks 0..3, chained in rank order. */
  lemma OrderedChain(d: string, l: string, u: string, p: string)
    requires Ordered(d) && Ordered(l) && Ordered(u) && Ordered(p)
    requires forall c :: c in d ==> Rank(c) == 0
    requires forall c :: c in l ==> Rank(c) == 1
    requires forall c :: c in u ==> Rank(c) == 2
    requires forall c :: c in p ==> Rank(c) == 3
    ensures Ordered(d + l + u + p)
  {
    OrderedAppend(u, p);
    OrderedAppend(l, u + p);
    OrderedAppend(d, l + (u + p));
    assert d + (l + (u + p)) == d + l + u + p;
  }

  /** In an ordered string the tail holds exactly the characters other than
      the head. */
  lemma OrderedTail(s: string)
    requires Ordered(s) && |s| > 0
    ensures forall c :: c in s[1..] <==> c in s && c != s[0]
  {
    forall c | c in s && c != s[0]
      ensures c in s[1..]
    {
      var k :| 0 <= k < |s| && s[k] == c;
      assert s[1..][k - 1] == c;
    }
  }

  /** Two ordered strings with the same characters are the same string. */
  lemma {:induction false} OrderedSameMembers(s: string, t: string)
    requires Ordered(s) && Ordered(t)
    requires forall c :: c in s <==> c in t
    ensures s == t
    decreases |s|
  {
    if |s| == 0 {
      HeadIsMember(t);
    } else {
      assert s[0] in t && t[0] in s;
      OrderedTail(s);
      OrderedTail(t);
      OrderedSameMembers(s[1..], t[1..]);
      assert s == [s[0]] + s[1..] && t == [t[0]] + t[1..];
    }
  }

  lemma HeadIsMember(t: string)
    ensures |t| > 0 ==> t[0] in t
  {
  }

  /** The alphabet is the only ordered string holding exactly the admitted
      characters: order plus membership pin it down. */
  lemma AlphabetDetermined(charSet: seq<string>, s: string)
    requires Ordered(s)
    requires forall c :: c in s <==> Admits(charSet, c)
    ensures s == Alphabet(charSet)
  {
    OrderedSameMembers(s, Alphabet(charSet));
  }

  /** An ordered alphabet lists no character twice. */
  lemma OrderedDistinct(s: string)
    requires Ordered(s)
    ensures Distinct(s)
  {
    forall i, j | 0 <= i < j < |s|
      ensures s[i] != s[j]
    {
      assert Precedes(s[i], s[j]);
    }
  }
}
