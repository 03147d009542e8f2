/** White space as the standard library sees it, and `str::trim`. */
module WhiteSpace {

  /** `char::is_whitespace` (Unicode White_Space). */
  predicate White(c: char) {
    var n := c as int;
    || 9 <= n <= 13 || n == 0x20 || n == 0x85 || n == 0xA0 || n == 0x1680
    || 0x2000 <= n <= 0x200A || n == 0x2028 || n == 0x2029 || n == 0x202F || n == 0x205F || n == 0x3000
  }

  /** `u8::is_ascii_whitespace`. */
  predicate AsciiWhite(c: char) {
    c == ' ' || c == '\t' || c == '\n' || c == '\r' || c as int == 12
  }

  function TrimStart(t: string): string {
    if t != [] && White(t[0]) then TrimStart(t[1..]) else t
  }

  function TrimEnd(t: string): string {
    if t != [] && White(t[|t| - 1]) then TrimEnd(t[..|t| - 1]) else t
  }

  function Trim(t: string): string {
    TrimEnd(TrimStart(t))
  }

  lemma {:induction false} TrimShortens(t: string)
    ensures |TrimStart(t)| <= |t| && |TrimEnd(t)| <= |t|
  {
    if t != [] && White(t[0]) {
      TrimShortens(t[1..]);
    }
    if t != [] && White(t[|t| - 1]) {
      TrimShortens(t[..|t| - 1]);
    }
  }

  lemma {:induction false} TrimIsDone(t: string)
    ensures TrimStart(t) == [] || !White(TrimStart(t)[0])
    ensures TrimEnd(t) == [] || !White(TrimEnd(t)[|TrimEnd(t)| - 1])
    ensures TrimEnd(t) <= t
  {
    if t != [] && White(t[0]) {
      TrimIsDone(t[1..]);
    }
    if t != [] && White(t[|t| - 1]) {
      TrimIsDone(t[..|t| - 1]);
    }
  }

  lemma TrimTwice(t: string)
    ensures Trim(Trim(t)) == Trim(t)
  {
    TrimIsDone(t);
    TrimIsDone(TrimStart(t));
  }

  predicate AllWhite(t: string) {
    forall k | 0 <= k < |t| :: White(t[k])
  }

  lemma {:induction false} TrimStartPadded(pre: string, core: string)
    requires AllWhite(pre) && (core != [] ==> !White(core[0]))
    ensures TrimStart(pre + core) == core
  {
    if pre == [] {
      assert pre + core == core;
    } else {
      assert (pre + core)[0] == pre[0];
      assert (pre + core)[1..] == pre[1..] + core;
      TrimStartPadded(pre[1..], core);
    }
  }

  lemma {:induction false} TrimEndPadded(core: string, post: string)
    requires AllWhite(post) && (core != [] ==> !White(core[|core| - 1]))
    ensures TrimEnd(core + post) == core
  {
    if post == [] {
      assert core + post == core;
    } else {
      var t := core + post;
      assert t[|t| - 1] == post[|post| - 1];
      assert t[..|t| - 1] == core + post[..|post| - 1];
      TrimEndPadded(core, post[..|post| - 1]);
    }
  }

  /** White space around a text that has none at its ends is what trimming takes away. */
  lemma TrimPadded(core: string, post: string)
    requires AllWhite(post) && core != [] && !White(core[0]) && !White(core[|core| - 1])
    ensures Trim(core + post) == core
  {
    TrimStartPadded([], core + post);
    assert [] + (core + post) == core + post;
    TrimEndPadded(core, post);
  }

  /** Trimming the end takes nothing in front of the last character that is not white. */
  lemma {:induction false} TrimEndKeeps(kept: string, tail: string)
    requires kept != [] && !White(kept[|kept| - 1])
    ensures kept <= TrimEnd(kept + tail)
  {
    var t := kept + tail;
    if tail == [] {
      assert t == kept;
    } else if White(t[|t| - 1]) {
      assert t[..|t| - 1] == kept + tail[..|tail| - 1];
      TrimEndKeeps(kept, tail[..|tail| - 1]);
    }
  }
}
