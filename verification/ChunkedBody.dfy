/** The body decoder of the Ollama client: HTTP chunked transfer coding (section 7.1 of
    RFC 9112), read from a buffered reader. */
module ChunkedBody {
  import opened Segments
  import opened Utf8
  import opened Utf8Text
  import opened WhiteSpace
  import opened Wrappers

  /** `usize::MAX` on a 64-bit machine. */
  const USIZE_MAX: nat := 0xFFFF_FFFF_FFFF_FFFF

  datatype Error = LineNotText | BadSize(hex: string) | Truncated

  type Fallible<T> = Result<T, Error>

  // ----- The size line

  predicate HexDigit(c: char) {
    '0' <= c <= '9' || 'a' <= c <= 'f' || 'A' <= c <= 'F'
  }

  function DigitValue(c: char): (v: nat)
    requires HexDigit(c)
    ensures v < 16
  {
    if c <= '9' then c as int - '0' as int
    else if c <= 'F' then c as int - 'A' as int + 10
    else c as int - 'a' as int + 10
  }

  predicate AllHex(s: string) {
    forall k | 0 <= k < |s| :: HexDigit(s[k])
  }

  function HexValue(s: string): nat
    requires AllHex(s)
  {
    if s == [] then 0 else HexValue(s[..|s| - 1]) * 16 + DigitValue(s[|s| - 1])
  }

  /** `usize::from_str_radix(s, 16)`: a sign `+` is let through, a value too wide is not. */
  function ParseHex(s: string): Option<nat> {
    var digits := if s != [] && s[0] == '+' then s[1..] else s;
    if digits == [] || !AllHex(digits) || HexValue(digits) > USIZE_MAX then None else Some(HexValue(digits))
  }

  function BeforeSemicolon(s: string): string {
    if s == [] || s[0] == ';' then [] else [s[0]] + BeforeSemicolon(s[1..])
  }

  function SizeText(line: string): string {
    Trim(BeforeSemicolon(Trim(line)))
  }

  /** Just behind the line that starts at `pos`. */
  function LineEnd(data: Bytes, pos: nat): (end: nat)
    requires pos <= |data|
    ensures pos <= end <= |data| && (pos < |data| ==> pos < end)
    decreases |data| - pos
  {
    if pos == |data| then pos else if data[pos] == 10 then pos + 1 else LineEnd(data, pos + 1)
  }

  function ReadSize(line: Bytes): Fallible<nat> {
    match Decode(line)
    case None => Err(LineNotText)
    case Some(text) =>
      match ParseHex(SizeText(text))
      case None => Err(BadSize(SizeText(text)))
      case Some(size) => Ok(size)
  }

  // ----- The decoder

  /** The body, and where in the stream it ends. */
  datatype Message = Message(body: Bytes, end: nat)

  function Prefixed(head: Bytes, rest: Fallible<Message>): Fallible<Message> {
    match rest
    case Ok(m) => Ok(Message(head + m.body, m.end))
    case Err(e) => Err(e)
  }

  /** What is decoded from `pos` on. */
  function Chunked(data: Bytes, pos: nat): Fallible<Message>
    requires pos <= |data|
    decreases |data| - pos
  {
    var eol := LineEnd(data, pos);
    match ReadSize(data[pos..eol])
    case Err(e) => Err(e)
    case Ok(size) =>
      if eol + size + 2 > |data| then Err(Truncated)
      else if size == 0 then Ok(Message([], eol + 2))
      else Prefixed(data[eol..eol + size], Chunked(data, eol + size + 2))
  }

  /** `BufReader`. */
  class Reader {
    const data: Bytes
    var pos: nat

    ghost predicate Valid()
      reads this
    {
      pos <= |data|
    }

    constructor (data: Bytes)
      ensures Valid() && this.data == data && pos == 0
    {
      this.data := data;
      pos := 0;
    }

    /** `read_line`. */
    method ReadLine() returns (line: Fallible<string>)
      requires Valid()
      modifies this
      ensures Valid() && pos == LineEnd(data, old(pos))
      ensures
        var text := Decode(data[old(pos)..pos]);
        line == if text.Some? then Ok(text.value) else Err(LineNotText)
    {
      var start := pos;
      while pos < |data| && data[pos] != 10
        invariant start <= pos <= |data|
        invariant LineEnd(data, pos) == LineEnd(data, start)
      {
        pos := pos + 1;
      }
      if pos < |data| {
        pos := pos + 1;
      }
      var text := Decode(data[start..pos]);
      line := if text.Some? then Ok(text.value) else Err(LineNotText);
    }

    /** `read_exact`. */
    method ReadExact(n: nat) returns (bytes: Fallible<Bytes>)
      requires Valid()
      modifies this
      ensures Valid()
      ensures bytes == if old(pos) + n <= |data| then Ok(data[old(pos)..old(pos) + n]) else Err(Truncated)
      ensures bytes.Ok? ==> pos == old(pos) + n
    {
      if n > |data| - pos {
        pos := |data|;
        return Err(Truncated);
      }
      bytes := Ok(data[pos..pos + n]);
      pos := pos + n;
    }
  }

  /** What one round of the decoder adds to the bytes decoded so far. */
  lemma ReadOn(data: Bytes, pos: nat, out: Bytes)
    requires pos <= |data|
    ensures
      var eol, all := LineEnd(data, pos), Prefixed(out, Chunked(data, pos));
      match ReadSize(data[pos..eol])
      case Err(e) => all == Err(e)
      case Ok(size) =>
        if eol + size + 2 > |data| then all == Err(Truncated)
        else if size == 0 then all == Ok(Message(out, eol + 2))
        else all == Prefixed(out + data[eol..eol + size], Chunked(data, eol + size + 2))
  {
    hide ReadSize, LineEnd;
    var eol := LineEnd(data, pos);
    var size := ReadSize(data[pos..eol]);
    assert out + [] == out;
    if size.Ok? && eol + size.value + 2 <= |data| && size.value > 0 {
      var rest := Chunked(data, eol + size.value + 2);
      if rest.Ok? {
        Associate(out, data[eol..eol + size.value], rest.value.body);
      }
    }
  }

  /** `read_chunked`. */
  method ReadChunked(reader: Reader) returns (body: Fallible<Bytes>)
    requires reader.Valid()
    modifies reader
    ensures reader.Valid()
    ensures
      match Chunked(reader.data, old(reader.pos))
      case Ok(m) => body == Ok(m.body) && reader.pos == m.end
      case Err(e) => body == Err(e)
  {
    hide SizeText, ParseHex, Decode, LineEnd, Chunked;
    ghost var all := Chunked(reader.data, reader.pos);
    var out: Bytes := [];
    assert all.Ok? ==> [] + all.value.body == all.value.body;
    while true
      invariant reader.Valid()
      invariant all == Prefixed(out, Chunked(reader.data, reader.pos))
      decreases |reader.data| - reader.pos
    {
      ReadOn(reader.data, reader.pos, out);
      var sizeLine := reader.ReadLine();
      if sizeLine.Err? {
        return Err(sizeLine.error);
      }
      var hex := SizeText(sizeLine.value);
      var size := ParseHex(hex);
      if size.None? {
        return Err(BadSize(hex));
      }
      if size.value == 0 {
        var term := reader.ReadExact(2);
        if term.Err? {
          return Err(term.error);
        }
        return Ok(out);
      }
      var chunk := reader.ReadExact(size.value);
      if chunk.Err? {
        return Err(chunk.error);
      }
      out := out + chunk.value;
      var crlf := reader.ReadExact(2);
      if crlf.Err? {
        return Err(crlf.error);
      }
    }
  }

  // ----- The coding

  /** A chunk as sent: its size line without the line end, its data, and the two bytes behind
      it, CR and LF in the standard, which the decoder does not look at. */
  datatype Frame = Frame(digits: string, blanks: string, extension: string, data: Bytes, ending: Bytes)

  function HeadText(f: Frame): string {
    f.digits + (f.blanks + f.extension)
  }

  const CRLF: string := "\r\n"

  const CRLF_BYTES: Bytes := [13, 10]

  function FrameHead(f: Frame): Bytes {
    Encode(HeadText(f) + CRLF)
  }

  /** The size line is in order: hexadecimal digits of either case for the size, blanks,
      and an extension, if any, that starts with `;` and stays on the line. */
  ghost predicate WellFormed(f: Frame) {
    && f.digits != [] && AllHex(f.digits) && HexValue(f.digits) == |f.data|
    && (forall k | 0 <= k < |f.blanks| :: f.blanks[k] == ' ' || f.blanks[k] == '\t')
    && (f.extension == [] || (f.extension[0] == ';' && '\n' !in f.extension))
    && |f.ending| == 2
  }

  /** Data chunks, then the chunk of size zero. */
  ghost predicate IsCoding(frames: seq<Frame>) {
    && frames != []
    && forall i | 0 <= i < |frames| :: WellFormed(frames[i]) && (frames[i].data == [] <==> i == |frames| - 1)
  }

  function FrameBytes(f: Frame): Bytes {
    FrameHead(f) + f.data + f.ending
  }

  function Coding(frames: seq<Frame>): Bytes {
    if frames == [] then [] else FrameBytes(frames[0]) + Coding(frames[1..])
  }

  function BodyOf(frames: seq<Frame>): Bytes {
    if frames == [] then [] else frames[0].data + BodyOf(frames[1..])
  }

  // ----- Reading back a size line

  lemma {:induction false} BeforeSemicolonStops(a: string, b: string)
    requires ';' !in a && (b == [] || b[0] == ';')
    ensures BeforeSemicolon(a + b) == a
  {
    if a == [] {
      assert a + b == b;
    } else {
      assert (a + b)[1..] == a[1..] + b;
      BeforeSemicolonStops(a[1..], b);
    }
  }

  lemma DigitsAreNotWhite(f: Frame)
    requires WellFormed(f)
    ensures
      var d := f.digits;
      d != [] && !White(d[0]) && !White(d[|d| - 1]) && ';' !in d && ';' !in d + f.blanks && AllWhite(f.blanks)
  {
    assert HexDigit(f.digits[0]) && HexDigit(f.digits[|f.digits| - 1]);
  }

  lemma BareSizeText(d: string, b: string)
    requires d != [] && !White(d[0]) && !White(d[|d| - 1]) && ';' !in d && AllWhite(b)
    ensures SizeText(d + (b + CRLF)) == d
  {
    TrimPadded(d, b + CRLF);
    BeforeSemicolonStops(d, []);
    assert d + [] == d;
    TrimPadded(d, []);
  }

  lemma ExtendedSizeText(d: string, b: string, extension: string)
    requires d != [] && !White(d[0]) && !White(d[|d| - 1]) && ';' !in d + b && AllWhite(b)
    requires extension != [] && extension[0] == ';'
    ensures SizeText(d + b + extension + CRLF) == d
  {
    var kept, tail := d + b + [';'], extension[1..] + CRLF;
    var line := kept + tail;
    assert d + b + extension + CRLF == line;
    TrimStartPadded([], line);
    assert [] + line == line;
    TrimEndKeeps(kept, tail);
    var trimmed := Trim(line);
    assert trimmed == (d + b) + trimmed[|d + b|..];
    assert trimmed[|d + b|] == kept[|d + b|];
    BeforeSemicolonStops(d + b, trimmed[|d + b|..]);
    TrimPadded(d, b);
  }

  /** From a size line in order, the digits are read. */
  lemma SizeTextIsDigits(f: Frame)
    requires WellFormed(f)
    ensures SizeText(HeadText(f) + CRLF) == f.digits
  {
    hide SizeText;
    DigitsAreNotWhite(f);
    if f.extension == [] {
      assert HeadText(f) + CRLF == f.digits + (f.blanks + CRLF);
      BareSizeText(f.digits, f.blanks);
    } else {
      assert HeadText(f) + CRLF == f.digits + f.blanks + f.extension + CRLF;
      ExtendedSizeText(f.digits, f.blanks, f.extension);
    }
  }

  lemma {:induction false} FirstLineFeed(data: Bytes, pos: nat, at: nat)
    requires pos <= at < |data| && data[at] == 10
    requires forall k | pos <= k < at :: data[k] != 10
    ensures LineEnd(data, pos) == at + 1
    decreases at - pos
  {
    if pos < at {
      FirstLineFeed(data, pos + 1, at);
    }
  }

  /** The size line of a frame is one line. */
  lemma HeadIsOneLine(f: Frame, data: Bytes, pos: nat)
    requires WellFormed(f)
    requires pos + |FrameHead(f)| <= |data| && data[pos..pos + |FrameHead(f)|] == FrameHead(f)
    ensures LineEnd(data, pos) == pos + |FrameHead(f)|
  {
    var head := FrameHead(f);
    var front := HeadText(f) + "\r";
    assert HeadText(f) + CRLF == front + "\n";
    EncodeConcat(front, "\n");
    assert Encode("\n") == [10] by {
      assert "\n"[1..] == [];
    }
    assert '\n' !in front;
    forall k | pos <= k < pos + |head| - 1
      ensures data[k] != 10
    {
      LineFeedsOnly(front, k - pos);
      assert data[k] == head[k - pos];
    }
    assert data[pos + |head| - 1] == head[|head| - 1];
    FirstLineFeed(data, pos, pos + |head| - 1);
  }

  lemma HeadIsRead(f: Frame)
    requires WellFormed(f)
    ensures ReadSize(FrameHead(f)) == if |f.data| <= USIZE_MAX then Ok(|f.data|) else Err(BadSize(f.digits))
  {
    DecodeInvertsEncode(HeadText(f) + CRLF);
    SizeTextIsDigits(f);
    assert HexDigit(f.digits[0]);
  }

  // ----- Decoding inverts coding

  ghost predicate Fits(frames: seq<Frame>) {
    forall i | 0 <= i < |frames| :: |frames[i].data| <= USIZE_MAX
  }

  ghost predicate StandsAt(data: Bytes, pos: nat, s: Bytes) {
    pos + |s| <= |data| && data[pos..pos + |s|] == s
  }

  lemma SplitAt(data: Bytes, pos: nat, a: Bytes, b: Bytes)
    requires StandsAt(data, pos, a + b)
    ensures StandsAt(data, pos, a) && StandsAt(data, pos + |a|, b)
  {
    var s := data[pos..pos + |a + b|];
    assert s[..|a|] == a && s[|a|..] == b;
  }

  lemma FrameIsRead(data: Bytes, pos: nat, f: Frame)
    requires WellFormed(f) && StandsAt(data, pos, FrameBytes(f))
    ensures
      Chunked(data, pos) ==
      if |f.data| > USIZE_MAX then Err(BadSize(f.digits))
      else if f.data == [] then Ok(Message([], pos + |FrameBytes(f)|))
      else Prefixed(f.data, Chunked(data, pos + |FrameBytes(f)|))
  {
    hide WellFormed, ReadSize, LineEnd, FrameHead, StandsAt;
    var head := FrameHead(f);
    EndingIsTwoBytes(f);
    SplitAt(data, pos, head + f.data, f.ending);
    SplitAt(data, pos, head, f.data);
    Standing(data, pos, head);
    Standing(data, pos + |head|, f.data);
    Standing(data, pos, FrameBytes(f));
    HeadIsOneLine(f, data, pos);
    HeadIsRead(f);
  }

  lemma EndingIsTwoBytes(f: Frame)
    requires WellFormed(f)
    ensures |f.ending| == 2
  {
  }

  lemma Standing(data: Bytes, pos: nat, s: Bytes)
    requires StandsAt(data, pos, s)
    ensures pos + |s| <= |data| && data[pos..pos + |s|] == s
  {
  }

  /** Wherever in the stream a coding stands, the decoder returns its body and stops right
      behind it; chunk sizes wider than a machine word are refused. A trailer section is not
      part of it: of that the decoder takes the first two bytes. */
  lemma {:induction false} DecodingInvertsCoding(data: Bytes, pos: nat, frames: seq<Frame>)
    requires IsCoding(frames) && StandsAt(data, pos, Coding(frames))
    ensures Fits(frames) ==> Chunked(data, pos) == Ok(Message(BodyOf(frames), pos + |Coding(frames)|))
    ensures !Fits(frames) ==> Chunked(data, pos).Err?
    decreases |frames|
  {
    hide FrameBytes, Chunked, WellFormed;
    var f, rest := frames[0], frames[1..];
    SplitAt(data, pos, FrameBytes(f), Coding(rest));
    FrameIsRead(data, pos, f);
    assert Fits(frames) <==> |f.data| <= USIZE_MAX && Fits(rest) by {
      assert frames == [f] + rest;
    }
    if rest != [] {
      CodingTail(frames);
      DecodingInvertsCoding(data, pos + |FrameBytes(f)|, rest);
    } else {
      assert f.data == [] && f.data + [] == f.data;
    }
  }

  lemma CodingTail(frames: seq<Frame>)
    requires IsCoding(frames) && |frames| > 1
    ensures frames[0].data != [] && IsCoding(frames[1..])
  {
    assert forall i | 0 <= i < |frames[1..]| :: frames[1..][i] == frames[i + 1];
  }

  // ----- What is not a message

  lemma {:induction false} LineOfPrefix(data: Bytes, n: nat, pos: nat)
    requires pos <= n <= |data|
    ensures LineEnd(data[..n], pos) == if LineEnd(data, pos) < n then LineEnd(data, pos) else n
    decreases |data| - pos
  {
    if pos < n && data[pos] != 10 {
      LineOfPrefix(data, n, pos + 1);
    }
  }

  /** A size line that runs to the end of the stream is always refused. */
  lemma UnendedLineFails(data: Bytes, pos: nat)
    requires pos <= |data| && LineEnd(data, pos) == |data|
    ensures Chunked(data, pos).Err?
  {
  }

  /** A message tells its own end: what follows does not matter, and without its last byte it
      is refused, wherever the stream breaks off. */
  lemma {:induction false} MessageIsSelfDelimiting(data: Bytes, pos: nat, n: nat)
    requires pos <= n <= |data| && Chunked(data, pos).Ok?
    ensures
      if Chunked(data, pos).value.end <= n then Chunked(data[..n], pos) == Chunked(data, pos)
      else Chunked(data[..n], pos).Err?
    decreases |data| - pos
  {
    hide ReadSize, LineEnd;
    var eol, cut := LineEnd(data, pos), data[..n];
    LineOfPrefix(data, n, pos);
    if n <= eol {
      UnendedLineFails(cut, pos);
      EndIsBehindTheLine(data, pos);
    } else {
      assert cut[pos..eol] == data[pos..eol];
      var next := eol + ReadSize(data[pos..eol]).value + 2;
      if next <= n && ReadSize(data[pos..eol]).value > 0 {
        assert cut[eol..next - 2] == data[eol..next - 2];
        MessageIsSelfDelimiting(data, next, n);
      } else if ReadSize(data[pos..eol]).value > 0 {
        EndIsBehindTheLine(data, next);
      }
    }
  }

  lemma {:induction false} EndIsBehindTheLine(data: Bytes, pos: nat)
    requires pos <= |data| && Chunked(data, pos).Ok?
    ensures LineEnd(data, pos) < Chunked(data, pos).value.end <= |data|
    decreases |data| - pos
  {
    hide ReadSize, LineEnd;
    var eol := LineEnd(data, pos);
    var size := ReadSize(data[pos..eol]).value;
    if size > 0 {
      EndIsBehindTheLine(data, eol + size + 2);
    }
  }

  /** Hexadecimal digits of either case. */
  lemma DigitsCount(v: nat, s: string)
    requires v < 16 && AllHex(s)
    ensures
      var lower, upper := "0123456789abcdef"[v], "0123456789ABCDEF"[v];
      && HexDigit(lower) && HexDigit(upper) && AllHex(s + [lower]) && AllHex(s + [upper])
      && HexValue(s + [lower]) == HexValue(s + [upper]) == 16 * HexValue(s) + v
  {
    var lower, upper := "0123456789abcdef"[v], "0123456789ABCDEF"[v];
    assert (s + [lower])[..|s|] == s && (s + [upper])[..|s|] == s;
  }

  /** A size is what hexadecimal digits say, with or without one plus sign in front, as long as
      it fits in a machine word. */
  lemma ParseHexMeaning(s: string, n: nat)
    ensures ParseHex(s) == Some(n) <==>
            exists d :: (s == d || s == "+" + d) && d != "" && AllHex(d) && HexValue(d) == n <= USIZE_MAX
  {
    if ParseHex(s) == Some(n) && s[0] == '+' {
      assert s == "+" + s[1..];
    }
    if d :| (s == d || s == "+" + d) && d != "" && AllHex(d) && HexValue(d) == n <= USIZE_MAX {
      assert HexDigit(d[0]);
      assert s == "+" + d ==> s[1..] == d;
    }
  }

  // ----- Every body has a coding

  function HexChar(v: nat): (c: char)
    requires v < 16
    ensures HexDigit(c) && DigitValue(c) == v
  {
    if v < 10 then ('0' as int + v) as char else ('a' as int + v - 10) as char
  }

  function Hex(n: nat): (s: string)
    ensures s != [] && AllHex(s) && HexValue(s) == n
  {
    if n < 16 then [HexChar(n)] else Hex(n / 16) + [HexChar(n % 16)]
  }

  function FramesOf(chunks: seq<Bytes>): seq<Frame> {
    if chunks == [] then [Frame("0", [], [], [], CRLF_BYTES)]
    else [Frame(Hex(|chunks[0]|), [], [], chunks[0], CRLF_BYTES)] + FramesOf(chunks[1..])
  }

  /** Every cut of a body into non-empty chunks has a coding as the standard has it. */
  lemma {:induction false} EveryCutHasCoding(chunks: seq<Bytes>)
    requires forall i | 0 <= i < |chunks| :: chunks[i] != []
    ensures IsCoding(FramesOf(chunks)) && BodyOf(FramesOf(chunks)) == Flatten(chunks)
    ensures |FramesOf(chunks)| == |chunks| + 1
    ensures forall i | 0 <= i < |chunks| :: FramesOf(chunks)[i].data == chunks[i]
    decreases |chunks|
  {
    if chunks == [] {
      assert HexValue("0") == 0 by {
        assert "0"[..0] == "";
      }
      assert BodyOf(FramesOf(chunks)) == [];
    } else {
      EveryCutHasCoding(chunks[1..]);
      assert FramesOf(chunks)[1..] == FramesOf(chunks[1..]);
    }
  }
}
