/** The UTF-8 code (section 3 of RFC 3629): characters to bytes and back. */
module Utf8Text {
  import opened Utf8
  import opened Wrappers

  datatype Decoded = Decoded(c: char, width: nat)

  function Tail(n: int): Byte {
    (0x80 + n % 0x40) as Byte
  }

  function EncodeChar(c: char): (s: Bytes)
    ensures 1 <= |s| <= 4
  {
    var n := c as int;
    if n < 0x80 then [n as Byte]
    else if n < 0x800 then [(0xC0 + n / 0x40) as Byte, Tail(n)]
    else if n < 0x10000 then [(0xE0 + n / 0x1000) as Byte, Tail(n / 0x40), Tail(n)]
    else [(0xF0 + n / 0x40000) as Byte, Tail(n / 0x1000), Tail(n / 0x40), Tail(n)]
  }

  function Encode(t: string): Bytes {
    if t == [] then [] else EncodeChar(t[0]) + Encode(t[1..])
  }

  predicate TailsFollow(s: Bytes, width: nat) {
    width <= |s| && forall k | 1 <= k < width :: Continuation(s[k])
  }

  predicate IsScalar(n: int) {
    0 <= n < 0xD800 || 0xE000 <= n < 0x11_0000
  }

  /** The number the first `width` bytes stand for. */
  function Code(s: Bytes, width: nat): int
    requires 1 <= width <= |s| && width <= 4
  {
    var lead := s[0] as int;
    if width == 1 then lead
    else if width == 2 then (lead - 0xC0) * 0x40 + (s[1] as int - 0x80)
    else if width == 3 then (lead - 0xE0) * 0x1000 + (s[1] as int - 0x80) * 0x40 + (s[2] as int - 0x80)
    else (lead - 0xF0) * 0x40000 + (s[1] as int - 0x80) * 0x1000 + (s[2] as int - 0x80) * 0x40 + (s[3] as int - 0x80)
  }

  /** The smallest number that needs that many bytes. */
  function Least(width: nat): int {
    if width <= 1 then 0 else if width == 2 then 0x80 else if width == 3 then 0x800 else 0x10000
  }

  /** The character the bytes start with: whole, in the shortest form, not a surrogate. */
  function DecodeChar(s: Bytes): (d: Option<Decoded>)
    requires s != []
    ensures d.Some? ==> 1 <= d.value.width <= |s|
  {
    var w := Width(s[0]);
    if Continuation(s[0]) || s[0] >= 0xF8 || !TailsFollow(s, w) then None
    else
      var n := Code(s, w);
      if Least(w) <= n && IsScalar(n) then Some(Decoded(n as char, w)) else None
  }

  /** `str::from_utf8`. */
  function Decode(s: Bytes): Option<string> {
    if s == [] then Some([])
    else
      match DecodeChar(s)
      case None => None
      case Some(d) =>
        match Decode(s[d.width..])
        case None => None
        case Some(t) => Some([d.c] + t)
  }

  /** A number in digits to the base 64. */
  lemma Sextets(n: nat)
    ensures n == n / 0x40 * 0x40 + n % 0x40
    ensures n / 0x40 == n / 0x1000 * 0x40 + n / 0x40 % 0x40
    ensures n / 0x1000 == n / 0x40000 * 0x40 + n / 0x1000 % 0x40
  {
    assert n / 0x40 / 0x40 == n / 0x1000;
    assert n / 0x1000 / 0x40 == n / 0x40000;
  }

  lemma CodeInverts(c: char)
    ensures Code(EncodeChar(c), |EncodeChar(c)|) == c as int
  {
    Sextets(c as int);
  }

  lemma LeadOf(c: char)
    ensures
      var e := EncodeChar(c);
      Width(e[0]) == |e| && !Continuation(e[0]) && e[0] < 0xF8 && TailsFollow(e, |e|) && Least(|e|) <= c as int
  {
  }

  lemma DecodeCharInverts(c: char, rest: Bytes)
    ensures DecodeChar(EncodeChar(c) + rest) == Some(Decoded(c, |EncodeChar(c)|))
  {
    hide EncodeChar;
    var e := EncodeChar(c);
    var s := e + rest;
    assert forall k | 0 <= k < |e| :: s[k] == e[k];
    CodeInverts(c);
    LeadOf(c);
    assert Code(s, |e|) == Code(e, |e|);
    assert IsScalar(c as int);
  }

  /** Every text comes back from its bytes. */
  lemma {:induction false} DecodeInvertsEncode(t: string)
    ensures Decode(Encode(t)) == Some(t)
  {
    if t != [] {
      var e := EncodeChar(t[0]);
      DecodeCharInverts(t[0], Encode(t[1..]));
      hide EncodeChar, DecodeChar;
      assert Encode(t) == e + Encode(t[1..]);
      assert Encode(t)[|e|..] == Encode(t[1..]);
      assert [t[0]] + t[1..] == t;
      DecodeInvertsEncode(t[1..]);
    }
  }

  /** `n` in two, three or four digits to the base 64. */
  lemma DigitsOf(a: int, b: int, c: int, d: int)
    requires 0 <= a && 0 <= b < 0x40 && 0 <= c < 0x40 && 0 <= d < 0x40
    ensures
      var n := ((a * 0x40 + b) * 0x40 + c) * 0x40 + d;
      n % 0x40 == d && n / 0x40 == (a * 0x40 + b) * 0x40 + c && n / 0x40 % 0x40 == c
      && n / 0x1000 == a * 0x40 + b && n / 0x1000 % 0x40 == b && n / 0x40000 == a
  {
  }

  /** The character decoded has the bytes it was decoded from. */
  lemma DecodedCharIsEncoded(s: Bytes)
    requires s != [] && DecodeChar(s).Some?
    ensures s[..DecodeChar(s).value.width] == EncodeChar(DecodeChar(s).value.c)
  {
    var w, lead := Width(s[0]), s[0] as int;
    assert forall k | 1 <= k < w :: Continuation(s[k]);
    if w == 2 {
      DigitsOf(0, 0, lead - 0xC0, s[1] as int - 0x80);
    } else if w == 3 {
      DigitsOf(0, lead - 0xE0, s[1] as int - 0x80, s[2] as int - 0x80);
    } else if w == 4 {
      DigitsOf(lead - 0xF0, s[1] as int - 0x80, s[2] as int - 0x80, s[3] as int - 0x80);
    }
  }

  /** Bytes are read as a text exactly if they are its code: no overlong form, no surrogate,
      nothing cut short. */
  lemma {:induction false} DecodesIff(s: Bytes, t: string)
    ensures Decode(s) == Some(t) <==> s == Encode(t)
    decreases |s|
  {
    hide DecodeChar, EncodeChar;
    DecodeInvertsEncode(t);
    if Decode(s) == Some(t) && s != [] {
      var d := DecodeChar(s).value;
      DecodedCharIsEncoded(s);
      DecodesIff(s[d.width..], t[1..]);
      assert s == s[..d.width] + s[d.width..];
      assert t == [d.c] + t[1..];
    }
  }

  /** Only the line feed has a byte 10. */
  lemma {:induction false} LineFeedsOnly(t: string, k: nat)
    requires k < |Encode(t)| && '\n' !in t
    ensures Encode(t)[k] != 10
  {
    var e := EncodeChar(t[0]);
    if k >= |e| {
      LineFeedsOnly(t[1..], k - |e|);
    }
  }

  lemma {:induction false} EncodeConcat(a: string, b: string)
    ensures Encode(a + b) == Encode(a) + Encode(b)
  {
    if a == [] {
      assert a + b == b;
    } else {
      assert (a + b)[1..] == a[1..] + b;
      EncodeConcat(a[1..], b);
    }
  }

  lemma ConcatValid(e: Bytes, s: Bytes)
    requires e != [] && !Continuation(e[0]) && Width(e[0]) == |e| && TailsFollow(e, |e|)
    requires Valid(s)
    ensures Valid(e + s)
  {
    var t := e + s;
    forall i | 0 <= i < |t| && !Continuation(t[i])
      ensures CharAt(t, i)
    {
      if i >= |e| {
        assert t[i] == s[i - |e|];
        assert CharAt(s, i - |e|);
        assert forall k | i < k < i + Width(t[i]) :: t[k] == s[k - |e|];
      } else {
        assert i == 0;
        assert forall k | 0 <= k < |e| :: t[k] == e[k];
        if s != [] {
          assert t[|e|] == s[0];
        }
      }
    }
  }

  /** Encoded text consists of whole characters, as the chunker takes for granted. */
  lemma {:induction false} EncodeIsValid(t: string)
    ensures Valid(Encode(t))
  {
    if t != [] {
      hide EncodeChar;
      LeadOf(t[0]);
      EncodeIsValid(t[1..]);
      ConcatValid(EncodeChar(t[0]), Encode(t[1..]));
    }
  }
}
