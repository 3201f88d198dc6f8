/** UTF-8 as Rust's standard library checks and repairs it: `str::from_utf8`
    accepts exactly the well-formed byte sequences of Table 3-7 of the Unicode
    Standard (section 3.9), and `String::from_utf8_lossy` replaces each maximal
    ill-formed subpart by U+FFFD. */
module Utf8 {
  import opened Der

  /** Length of the well-formed sequence a lead octet introduces, 0 when the
      octet cannot start one (a continuation octet, C0, C1, F5..FF). */
  function SequenceLength(lead: byte): nat {
    if lead < 0x80 then 1
    else if 0xC2 <= lead <= 0xDF then 2
    else if 0xE0 <= lead <= 0xEF then 3
    else if 0xF0 <= lead <= 0xF4 then 4
    else 0
  }

  /** Whether `b` may stand at position `k` (1 to 3) of a sequence led by
      `lead`; the second octet's range depends on the lead, later ones do not. */
  predicate ContinuationOk(lead: byte, k: nat, b: byte) {
    if k == 1 && lead == 0xE0 then 0xA0 <= b <= 0xBF
    else if k == 1 && lead == 0xED then 0x80 <= b <= 0x9F
    else if k == 1 && lead == 0xF0 then 0x90 <= b <= 0xBF
    else if k == 1 && lead == 0xF4 then 0x80 <= b <= 0x8F
    else 0x80 <= b <= 0xBF
  }

  /** Extends a match of `k` octets of a sequence of length `n` at the start of
      `s` as far as the octets allow. */
  function Matched(s: seq<byte>, n: nat, k: nat): (m: nat)
    requires 1 <= k <= n && k <= |s|
    decreases n - k
    ensures k <= m <= n && m <= |s|
    ensures forall j :: k <= j < m ==> ContinuationOk(s[0], j, s[j])
    ensures m < n && m < |s| ==> !ContinuationOk(s[0], m, s[m])
  {
    if k == n || k == |s| || !ContinuationOk(s[0], k, s[k]) then k
    else Matched(s, n, k + 1)
  }

  /** What the decoder finds at the start of a buffer: a well-formed character
      of `len` octets, or an ill-formed maximal subpart of `len` octets. */
  datatype Step = Char(len: nat) | Invalid(len: nat)

  function Next(s: seq<byte>): (st: Step)
    requires |s| > 0
    ensures 1 <= st.len <= |s|
    ensures st.Char? ==> st.len == SequenceLength(s[0])
  {
    var n := SequenceLength(s[0]);
    if n == 0 then Invalid(1)
    else
      var m := Matched(s, n, 1);
      if m == n then Char(n) else Invalid(m)
  }

  /** `str::from_utf8(s).is_ok()`. */
  predicate WellFormed(s: seq<byte>)
    decreases |s|
  {
    s == [] || (Next(s).Char? && WellFormed(s[Next(s).len..]))
  }

  /** U+FFFD REPLACEMENT CHARACTER in UTF-8. */
  const Replacement: seq<byte> := [0xEF, 0xBF, 0xBD]

  /** The bytes of `String::from_utf8_lossy(s)`. */
  function Lossy(s: seq<byte>): seq<byte>
    decreases |s|
  {
    if s == [] then []
    else
      match Next(s)
      case Char(n) => s[..n] + Lossy(s[n..])
      case Invalid(n) => Replacement + Lossy(s[n..])
  }

  /** Matching depends only on the octets it looks at. */
  lemma {:induction false} MatchedOnPrefix(s: seq<byte>, t: seq<byte>, n: nat, k: nat)
    requires 1 <= k <= n <= |s| && n <= |t| && s[..n] == t[..n]
    ensures Matched(s, n, k) == Matched(t, n, k)
    decreases n - k
  {
    assert s[0] == s[..n][0] && t[0] == t[..n][0];
    if k < n {
      assert s[k] == s[..n][k] && t[k] == t[..n][k];
      if ContinuationOk(s[0], k, s[k]) {
        MatchedOnPrefix(s, t, n, k + 1);
      }
    }
  }

  /** A character read from the start of a buffer is read the same way
      whatever follows it. */
  lemma NextOnPrefix(s: seq<byte>, t: seq<byte>)
    requires |s| > 0 && Next(s).Char?
    requires |t| >= Next(s).len && t[..Next(s).len] == s[..Next(s).len]
    ensures Next(t) == Next(s)
  {
    var n := Next(s).len;
    assert t[0] == t[..n][0];
    MatchedOnPrefix(s, t, n, 1);
  }

  /** Prefixing a well-formed buffer leaves the rest to decide well-formedness. */
  lemma {:induction false} WellFormedAppend(a: seq<byte>, b: seq<byte>)
    requires WellFormed(a)
    ensures WellFormed(a + b) <==> WellFormed(b)
    decreases |a|
  {
    if a == [] {
      assert a + b == b;
    } else {
      var n := Next(a).len;
      assert (a + b)[..n] == a[..n];
      NextOnPrefix(a, a + b);
      assert (a + b)[n..] == a[n..] + b;
      WellFormedAppend(a[n..], b);
    }
  }

  /** The octets after the first of a character are all continuation octets. */
  lemma CharContinuations(s: seq<byte>)
    requires |s| > 0 && Next(s).Char?
    ensures forall j :: 1 <= j < Next(s).len ==> s[j] >= 0x80
  {
  }

  /** A buffer that ends in an ASCII octet cannot share a character with what
      follows it, so a well-formed concatenation has a well-formed first part. */
  lemma {:induction false} WellFormedPrefixAtAscii(a: seq<byte>, b: seq<byte>)
    requires |a| > 0 && a[|a| - 1] < 0x80
    requires WellFormed(a + b)
    ensures WellFormed(a)
    decreases |a|
  {
    var s := a + b;
    var n := Next(s).len;
    CharContinuations(s);
    assert s[|a| - 1] == a[|a| - 1];
    if |a| == 1 {
      assert n == SequenceLength(s[0]) == 1;
    } else {
      assert !(1 <= |a| - 1 < n);
    }
    assert s[..n] == a[..n];
    NextOnPrefix(s, a);
    if n < |a| {
      assert s[n..] == a[n..] + b;
      WellFormedPrefixAtAscii(a[n..], b);
    }
  }

  lemma DropFromAppend(a: seq<byte>, b: seq<byte>, n: nat)
    requires n <= |a|
    ensures (a + b)[n..] == a[n..] + b
  {
  }

  /** An ASCII octet cannot continue a character, so the buffer before it is
      well-formed whenever the whole is. */
  lemma {:induction false} WellFormedBeforeAscii(a: seq<byte>, b: seq<byte>)
    requires |b| > 0 && b[0] < 0x80
    requires WellFormed(a + b)
    ensures WellFormed(a)
    decreases |a|
  {
    if a != [] {
      var s := a + b;
      var n := Next(s).len;
      CharContinuations(s);
      assert s[|a|] == b[0];
      assert n <= |a|;
      assert s[..n] == a[..n];
      NextOnPrefix(s, a);
      DropFromAppend(a, b, n);
      WellFormedBeforeAscii(a[n..], b);
    }
  }

  /** Well-formedness of a buffer split after an ASCII octet is the
      well-formedness of both parts. */
  lemma WellFormedSplitAtAscii(a: seq<byte>, b: seq<byte>)
    requires a == [] || a[|a| - 1] < 0x80
    ensures WellFormed(a + b) <==> WellFormed(a) && WellFormed(b)
  {
    if a == [] {
      assert a + b == b;
    } else if WellFormed(a + b) {
      WellFormedPrefixAtAscii(a, b);
      WellFormedAppend(a, b);
    } else if WellFormed(a) {
      WellFormedAppend(a, b);
    }
  }

  /** A single decoded character followed by a buffer. */
  lemma WellFormedCons(c: seq<byte>, rest: seq<byte>)
    requires |c| > 0 && Next(c) == Char(|c|)
    ensures WellFormed(c + rest) <==> WellFormed(rest)
  {
    assert c[|c|..] == [];
    assert WellFormed(c);
    WellFormedAppend(c, rest);
  }

  /** The repaired bytes are always well-formed UTF-8. */
  lemma {:induction false} LossyWellFormed(s: seq<byte>)
    ensures WellFormed(Lossy(s))
    decreases |s|
  {
    if s != [] {
      var st := Next(s);
      LossyWellFormed(s[st.len..]);
      if st.Char? {
        var c := s[..st.len];
        assert c[..st.len] == s[..st.len];
        NextOnPrefix(s, c);
        WellFormedCons(c, Lossy(s[st.len..]));
      } else {
        assert Next(Replacement) == Char(3);
        WellFormedCons(Replacement, Lossy(s[st.len..]));
      }
    }
  }

  /** Repair copies a well-formed first character. */
  lemma LossyOfChar(s: seq<byte>, n: nat)
    requires s != [] && Next(s) == Char(n)
    ensures Lossy(s) == s[..n] + Lossy(s[n..])
  {
  }

  /** A buffer is its first n octets followed by the rest. */
  lemma Rejoin(whole: seq<byte>, s: seq<byte>, rest: seq<byte>, n: nat)
    requires n <= |s| && rest == s[n..] && whole == s[..n] + rest
    ensures whole == s
  {
    assert s[..n] + s[n..] == s;
  }

  /** What follows the first character of a well-formed buffer is
      well-formed. */
  lemma WellFormedRest(s: seq<byte>, n: nat)
    requires s != [] && WellFormed(s) && Next(s).len == n
    ensures WellFormed(s[n..])
  {
  }

  /** Repair changes nothing in a well-formed buffer. */
  lemma {:induction false} LossyOfWellFormed(s: seq<byte>)
    requires WellFormed(s)
    ensures Lossy(s) == s
    decreases |s|
  {
    if s != [] {
      var n := Next(s).len;
      WellFormedRest(s, n);
      LossyOfWellFormed(s[n..]);
      LossyOfChar(s, n);
      Rejoin(Lossy(s), s, Lossy(s[n..]), n);
    }
  }
}
