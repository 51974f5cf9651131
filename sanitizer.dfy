/**
 * `sanitize_string`: transcode a cell to US-ASCII, turning every character
 * ASCII cannot represent into one space and CRLF or CR into LF, then Rails
 * `squish` (every `[[:space:]]` run becomes one space, then `strip`).
 */
module Sanitizer {
  import opened Wrappers
  import opened RubyText

  predicate IsAscii(c: char)
  {
    (c as int) < 128
  }

  /** The characters Ruby's `String#strip` removes from either end: NUL and ASCII whitespace. */
  predicate Strippable(c: char)
  {
    c == '\0' || c == ' ' || ('\t' <= c <= '\r')
  }

  /** `universal_newline: true`: CRLF and a lone CR both become LF. */
  function UniversalNewline(s: string): string
    decreases |s|
  {
    if |s| == 0 then ""
    else if s[0] == '\r' then "\n" + UniversalNewline(if |s| > 1 && s[1] == '\n' then s[2..] else s[1..])
    else [s[0]] + UniversalNewline(s[1..])
  }

  /** No carriage return survives the newline conversion. */
  lemma {:induction false} UniversalNewlineNoCR(s: string)
    ensures '\r' !in UniversalNewline(s)
    decreases |s|
  {
    if |s| > 0 {
      if s[0] == '\r' {
        UniversalNewlineNoCR(if |s| > 1 && s[1] == '\n' then s[2..] else s[1..]);
      } else {
        UniversalNewlineNoCR(s[1..]);
      }
    }
  }

  /** `undef: :replace, replace: ' '`: each character outside ASCII becomes a space. */
  function ToAscii(s: string): string
  {
    if |s| == 0 then "" else [if IsAscii(s[0]) then s[0] else ' '] + ToAscii(s[1..])
  }

  /** Transcoding keeps the length and every ASCII character, puts a space in place of every other one, and leaves only ASCII. */
  lemma {:induction false} ToAsciiShape(s: string)
    ensures var r := ToAscii(s);
      && |r| == |s|
      && (forall i :: 0 <= i < |r| ==> IsAscii(r[i]))
      && (forall i :: 0 <= i < |r| && IsAscii(s[i]) ==> r[i] == s[i])
      && (forall i :: 0 <= i < |r| && !IsAscii(s[i]) ==> r[i] == ' ')
  {
    if |s| > 0 {
      ToAsciiShape(s[1..]);
    }
  }

  /** The rest of `s` after its leading `[[:space:]]` run. */
  function DropSpaces(s: string): (t: string)
    ensures |t| <= |s|
  {
    if |s| > 0 && IsSpace(s[0]) then DropSpaces(s[1..]) else s
  }

  /** What DropSpaces removes is a run of whitespace, and what it keeps starts with a non-space. */
  lemma {:induction false} DropSpacesShape(s: string)
    ensures var t := DropSpaces(s);
      && t == s[|s| - |t|..]
      && (forall i :: 0 <= i < |s| - |t| ==> IsSpace(s[i]))
      && (|t| > 0 ==> !IsSpace(t[0]))
  {
    if |s| > 0 && IsSpace(s[0]) {
      DropSpacesShape(s[1..]);
    }
  }

  /** No two spaces in a row. */
  predicate NoDoubleSpace(r: string)
  {
    forall i :: 0 <= i < |r| - 1 ==> !(r[i] == ' ' && r[i + 1] == ' ')
  }

  /** The only whitespace left is the plain space. */
  predicate OnlyPlainSpaces(r: string)
  {
    forall i :: 0 <= i < |r| && IsSpace(r[i]) ==> r[i] == ' '
  }

  /** Every maximal `[[:space:]]` run replaced by one space. */
  function Collapse(s: string): string
    decreases |s|
  {
    if |s| == 0 then ""
    else if IsSpace(s[0]) then " " + Collapse(DropSpaces(s[1..]))
    else [s[0]] + Collapse(s[1..])
  }

  /**
   * After the substitution no whitespace but single plain spaces is left, no
   * character is invented, and a string starting with a non-space still does.
   */
  lemma {:induction false} CollapseShape(s: string)
    ensures var r := Collapse(s);
      && NoDoubleSpace(r) && OnlyPlainSpaces(r)
      && (forall i :: 0 <= i < |r| ==> r[i] == ' ' || r[i] in s)
      && (|s| == 0 <==> |r| == 0)
      && (|s| > 0 && !IsSpace(s[0]) ==> r[0] == s[0])
    decreases |s|
  {
    if |s| > 0 {
      var r := Collapse(s);
      if IsSpace(s[0]) {
        var d := DropSpaces(s[1..]);
        CollapseShape(d);
        DropSpacesShape(s[1..]);
        assert forall c :: c in d ==> c in s;
      } else {
        CollapseShape(s[1..]);
      }
    }
  }

  /** Removing a leading whitespace run from `x + y` only touches `x` when `x` ends in a non-space. */
  lemma {:induction false} DropSpacesAppend(x: string, y: string)
    requires |x| > 0 && !IsSpace(x[|x| - 1])
    ensures DropSpaces(x + y) == DropSpaces(x) + y
    ensures |DropSpaces(x)| > 0 && DropSpaces(x)[|DropSpaces(x)| - 1] == x[|x| - 1]
    decreases |x|
  {
    if IsSpace(x[0]) {
      assert (x + y)[1..] == x[1..] + y;
      DropSpacesAppend(x[1..], y);
    }
  }

  /** A whitespace run in front of `b` is removed whole, and nothing of `b` with it. */
  lemma {:induction false} DropSpacesRun(w: string, b: string)
    requires forall i :: 0 <= i < |w| ==> IsSpace(w[i])
    requires |b| == 0 || !IsSpace(b[0])
    ensures DropSpaces(w + b) == b
    decreases |w|
  {
    if |w| > 0 {
      assert (w + b)[1..] == w[1..] + b;
      DropSpacesRun(w[1..], b);
    } else {
      assert w + b == b;
    }
  }

  /** A part that does not end in whitespace is collapsed on its own: no run crosses its end. */
  lemma {:induction false} CollapseAppend(a: string, x: string)
    requires |a| == 0 || !IsSpace(a[|a| - 1])
    ensures Collapse(a + x) == Collapse(a) + Collapse(x)
    decreases |a|, 1
  {
    if |a| == 0 {
      assert a + x == x;
    } else if IsSpace(a[0]) {
      CollapseAppendRun(a, x);
    } else {
      CollapseAppendInk(a, x);
    }
  }

  /** CollapseAppend when `a` starts with whitespace: the leading run of `a + x` lies inside `a`. */
  lemma {:induction false} CollapseAppendRun(a: string, x: string)
    requires |a| > 0 && IsSpace(a[0]) && !IsSpace(a[|a| - 1])
    ensures Collapse(a + x) == Collapse(a) + Collapse(x)
    decreases |a|, 0
  {
    var t, y, cx := a[1..], a + x, Collapse(x);
    assert y[0] == a[0] && y[1..] == t + x;
    var d := DropSpaces(t);
    var cd := Collapse(d);
    assert Collapse(y) == " " + (cd + cx) by {
      DropSpacesAppend(t, x);
      CollapseAppend(d, x);
    }
    assert " " + (cd + cx) == (" " + cd) + cx;
  }

  /** CollapseAppend when `a` starts with a non-space, which is kept. */
  lemma {:induction false} CollapseAppendInk(a: string, x: string)
    requires |a| > 0 && !IsSpace(a[0]) && !IsSpace(a[|a| - 1])
    ensures Collapse(a + x) == Collapse(a) + Collapse(x)
    decreases |a|, 0
  {
    var t, y, cx := a[1..], a + x, Collapse(x);
    assert y[0] == a[0] && y[1..] == t + x;
    var ct := Collapse(t);
    assert Collapse(y) == [a[0]] + (ct + cx) by {
      CollapseAppend(t, x);
    }
    assert [a[0]] + (ct + cx) == ([a[0]] + ct) + cx;
  }

  /** A leading whitespace run becomes one space. */
  lemma CollapseLeadingRun(w: string, b: string)
    requires |w| > 0 && forall i :: 0 <= i < |w| ==> IsSpace(w[i])
    requires |b| == 0 || !IsSpace(b[0])
    ensures Collapse(w + b) == " " + Collapse(b)
  {
    var x := w + b;
    assert x[0] == w[0];
    assert x[1..] == w[1..] + b;
    DropSpacesRun(w[1..], b);
    assert Collapse(x) == " " + Collapse(DropSpaces(x[1..]));
  }

  /**
   * The substitution rule itself: a whitespace run `w` between two parts that
   * do not border on whitespace becomes exactly one space, in its place.
   */
  lemma CollapseRun(a: string, w: string, b: string)
    requires |w| > 0 && forall i :: 0 <= i < |w| ==> IsSpace(w[i])
    requires |a| == 0 || !IsSpace(a[|a| - 1])
    requires |b| == 0 || !IsSpace(b[0])
    ensures Collapse(a + (w + b)) == Collapse(a) + (" " + Collapse(b))
  {
    CollapseLeadingRun(w, b);
    CollapseAppend(a, w + b);
  }

  function LStrip(s: string): string
  {
    if |s| > 0 && Strippable(s[0]) then LStrip(s[1..]) else s
  }

  /** `lstrip` removes a run of strippable characters and stops at the first other one. */
  lemma {:induction false} LStripShape(s: string)
    ensures var r := LStrip(s);
      && |r| <= |s| && r == s[|s| - |r|..]
      && (forall i :: 0 <= i < |s| - |r| ==> Strippable(s[i]))
      && (|r| > 0 ==> !Strippable(r[0]))
  {
    if |s| > 0 && Strippable(s[0]) {
      LStripShape(s[1..]);
    }
  }

  function RStrip(s: string): string
  {
    if |s| > 0 && Strippable(s[|s| - 1]) then RStrip(s[..|s| - 1]) else s
  }

  /** `rstrip` removes a run of strippable characters at the end and stops at the last other one. */
  lemma {:induction false} RStripShape(s: string)
    ensures var r := RStrip(s);
      && |r| <= |s| && r == s[..|r|]
      && (forall i :: |r| <= i < |s| ==> Strippable(s[i]))
      && (|r| > 0 ==> !Strippable(r[|r| - 1]))
  {
    if |s| > 0 && Strippable(s[|s| - 1]) {
      RStripShape(s[..|s| - 1]);
    }
  }

  /** `String#strip`. */
  function Strip(s: string): (r: string)
  {
    RStrip(LStrip(s))
  }

  /** Rails `squish`. */
  function Squish(s: string): string
  {
    Strip(Collapse(s))
  }

  /** `sanitize_string`: nil stays nil, a string is transcoded and squished. */
  function Sanitize(v: Option<string>): (r: Option<string>)
    ensures r.None? <==> v.None?
  {
    match v
    case None => None
    case Some(s) => Some(Squish(ToAscii(UniversalNewline(s))))
  }

  /** What a sanitized value looks like: ASCII, single plain spaces, nothing removable at either end. */
  predicate Clean(r: string)
  {
    && (forall i :: 0 <= i < |r| ==> IsAscii(r[i]))
    && OnlyPlainSpaces(r)
    && NoDoubleSpace(r)
    && (|r| > 0 ==> !Strippable(r[0]) && !Strippable(r[|r| - 1]))
  }

  /** Every sanitized string is clean. */
  lemma SanitizeClean(v: Option<string>)
    requires v.Some?
    ensures Sanitize(v).Some? && Clean(Sanitize(v).value)
  {
    var a := ToAscii(UniversalNewline(v.value));
    var c := Collapse(a);
    ToAsciiShape(UniversalNewline(v.value));
    CollapseShape(a);
    assert forall i :: 0 <= i < |c| ==> IsAscii(c[i]) by {
      forall i | 0 <= i < |c| ensures IsAscii(c[i]) {
        if c[i] != ' ' {
          assert c[i] in a;
        }
      }
    }
    StripClean(c);
  }

  /** `strip` keeps a contiguous part of its input that neither starts nor ends with a strippable character. */
  lemma StripSlice(c: string) returns (k: nat)
    ensures k + |Strip(c)| <= |c| && Strip(c) == c[k..k + |Strip(c)|]
    ensures |Strip(c)| > 0 ==> !Strippable(Strip(c)[0]) && !Strippable(Strip(c)[|Strip(c)| - 1])
  {
    var l := LStrip(c);
    var r := RStrip(l);
    LStripShape(c);
    RStripShape(l);
    k := |c| - |l|;
    assert l == c[k..];
    assert r == l[..|r|];
    assert r == c[k..k + |r|];
    if |r| > 0 {
      assert r[0] == l[0];
    }
  }

  /** Stripping a collapsed ASCII string leaves a clean one. */
  lemma StripClean(c: string)
    requires forall i :: 0 <= i < |c| ==> IsAscii(c[i])
    requires OnlyPlainSpaces(c) && NoDoubleSpace(c)
    ensures Clean(Strip(c))
  {
    var r := Strip(c);
    var k := StripSlice(c);
    SliceKeepsShape(c, k, k + |r|);
  }

  /** Part of a string inherits its being ASCII and its single plain spaces. */
  lemma SliceKeepsShape(c: string, lo: nat, hi: nat)
    requires lo <= hi <= |c|
    requires forall i :: 0 <= i < |c| ==> IsAscii(c[i])
    requires OnlyPlainSpaces(c) && NoDoubleSpace(c)
    ensures forall i :: 0 <= i < hi - lo ==> IsAscii(c[lo..hi][i])
    ensures OnlyPlainSpaces(c[lo..hi]) && NoDoubleSpace(c[lo..hi])
  {
    var r := c[lo..hi];
    assert forall i :: 0 <= i < |r| ==> r[i] == c[lo + i];
    forall i | 0 <= i < |r| - 1 ensures !(r[i] == ' ' && r[i + 1] == ' ') {
      assert r[i] == c[lo + i] && r[i + 1] == c[lo + i + 1];
    }
  }

  lemma {:induction false} UniversalNewlineFixed(s: string)
    requires '\r' !in s
    ensures UniversalNewline(s) == s
    decreases |s|
  {
    if |s| > 0 {
      UniversalNewlineFixed(s[1..]);
      assert s == [s[0]] + s[1..];
    }
  }

  lemma {:induction false} ToAsciiFixed(s: string)
    requires forall i :: 0 <= i < |s| ==> IsAscii(s[i])
    ensures ToAscii(s) == s
  {
    if |s| > 0 {
      ToAsciiFixed(s[1..]);
      assert s == [s[0]] + s[1..];
    }
  }

  lemma {:induction false} CollapseFixed(s: string)
    requires OnlyPlainSpaces(s) && NoDoubleSpace(s)
    ensures Collapse(s) == s
    decreases |s|
  {
    if |s| > 0 {
      assert OnlyPlainSpaces(s[1..]) && NoDoubleSpace(s[1..]);
      CollapseFixed(s[1..]);
      if IsSpace(s[0]) {
        assert |s| > 1 ==> !IsSpace(s[1]);
        assert DropSpaces(s[1..]) == s[1..];
      }
      assert s == [s[0]] + s[1..];
    }
  }

  /** A clean string is left alone. */
  lemma CleanFixed(r: string)
    requires Clean(r)
    ensures Sanitize(Some(r)) == Some(r)
  {
    assert '\r' !in r by {
      forall i | 0 <= i < |r| ensures r[i] != '\r' {
        assert IsSpace('\r');
      }
    }
    UniversalNewlineFixed(r);
    ToAsciiFixed(r);
    CollapseFixed(r);
    assert LStrip(r) == r;
    assert RStrip(r) == r;
  }

  /** The newline conversion writes only LF and characters of its input. */
  lemma {:induction false} UniversalNewlineChars(s: string)
    ensures forall i :: 0 <= i < |UniversalNewline(s)| ==> UniversalNewline(s)[i] == '\n' || UniversalNewline(s)[i] in s
    decreases |s|
  {
    if |s| > 0 {
      var rest := if s[0] == '\r' && |s| > 1 && s[1] == '\n' then s[2..] else s[1..];
      UniversalNewlineChars(rest);
      assert forall c :: c in rest ==> c in s;
      if s[0] != '\r' {
        assert UniversalNewline(s) == [s[0]] + UniversalNewline(rest);
      }
    }
  }

  /** A blank cell sanitizes to the empty string. */
  lemma BlankSanitizesEmpty(v: Option<string>)
    ensures Blank(v) ==> v.None? || Sanitize(v) == Some("")
  {
    if v.Some? && Blank(v) {
      var u := UniversalNewline(v.value);
      var a := ToAscii(u);
      UniversalNewlineChars(v.value);
      ToAsciiShape(u);
      assert forall i :: 0 <= i < |u| ==> IsSpace(u[i]);
      assert forall i :: 0 <= i < |a| ==> IsSpace(a[i]) by {
        forall i | 0 <= i < |a| ensures IsSpace(a[i]) {
          if IsAscii(u[i]) {
            assert a[i] == u[i];
          }
        }
      }
      if |a| > 0 {
        DropSpacesRun(a[1..], "");
        assert a[1..] + "" == a[1..];
        assert Collapse(a) == " ";
        assert " "[1..] == "";
        assert LStrip(" ") == "";
      }
    }
  }

  /** Sanitizing twice is sanitizing once. */
  lemma SanitizeIdempotent(v: Option<string>)
    ensures Sanitize(Sanitize(v)) == Sanitize(v)
  {
    if v.Some? {
      SanitizeClean(v);
      CleanFixed(Sanitize(v).value);
    }
  }

  /** A character sanitizing never touches: ASCII other than whitespace and NUL. */
  predicate Ink(c: char)
  {
    IsAscii(c) && !IsSpace(c) && c != '\0'
  }

  /** The ink characters of `s`, in order. */
  function InkOf(s: string): string
  {
    if |s| == 0 then "" else (if Ink(s[0]) then [s[0]] else "") + InkOf(s[1..])
  }

  lemma {:induction false} InkOfAppend(a: string, b: string)
    ensures InkOf(a + b) == InkOf(a) + InkOf(b)
    decreases |a|
  {
    if |a| > 0 {
      InkOfAppend(a[1..], b);
      var head := if Ink(a[0]) then [a[0]] else "";
      assert (a + b)[0] == a[0];
      assert (a + b)[1..] == a[1..] + b;
      assert InkOf(a + b) == head + InkOf(a[1..] + b);
      assert InkOf(a) == head + InkOf(a[1..]);
    } else {
      assert a + b == b;
    }
  }

  lemma {:induction false} InkOfBlank(a: string)
    requires forall i :: 0 <= i < |a| ==> !Ink(a[i])
    ensures InkOf(a) == ""
    decreases |a|
  {
    if |a| > 0 {
      InkOfBlank(a[1..]);
    }
  }

  lemma {:induction false} InkOfUniversalNewline(s: string)
    ensures InkOf(UniversalNewline(s)) == InkOf(s)
    decreases |s|
  {
    if |s| > 0 {
      if s[0] == '\r' {
        if |s| > 1 && s[1] == '\n' {
          InkOfUniversalNewline(s[2..]);
          assert InkOf(s) == InkOf(s[1..]);
          assert InkOf(s[1..]) == InkOf(s[2..]);
        } else {
          InkOfUniversalNewline(s[1..]);
        }
      } else {
        InkOfUniversalNewline(s[1..]);
      }
    }
  }

  lemma {:induction false} InkOfToAscii(s: string)
    ensures InkOf(ToAscii(s)) == InkOf(s)
    decreases |s|
  {
    if |s| > 0 {
      InkOfToAscii(s[1..]);
      assert ToAscii(s)[1..] == ToAscii(s[1..]);
    }
  }

  lemma {:induction false} InkOfCollapse(s: string)
    ensures InkOf(Collapse(s)) == InkOf(s)
    decreases |s|
  {
    if |s| > 0 {
      var t := s[1..];
      if IsSpace(s[0]) {
        var d := DropSpaces(t);
        InkOfCollapse(d);
        CollapseShape(d);
        DropSpacesShape(t);
        var run := t[..|t| - |d|];
        assert t == run + d;
        InkOfBlank(run);
        InkOfAppend(run, d);
        assert Collapse(s) == " " + Collapse(d);
        assert InkOf(Collapse(s)) == InkOf(Collapse(d));
      } else {
        InkOfCollapse(t);
        assert Collapse(s) == [s[0]] + Collapse(t);
      }
    }
  }

  lemma InkOfLStrip(s: string)
    ensures InkOf(LStrip(s)) == InkOf(s)
  {
    var l := LStrip(s);
    LStripShape(s);
    var cut := s[..|s| - |l|];
    assert s == cut + l;
    assert forall i :: 0 <= i < |cut| ==> Strippable(cut[i]);
    InkOfBlank(cut);
    InkOfAppend(cut, l);
  }

  lemma InkOfRStrip(s: string)
    ensures InkOf(RStrip(s)) == InkOf(s)
  {
    var r := RStrip(s);
    RStripShape(s);
    var cut := s[|r|..];
    assert s == r + cut;
    assert forall i :: 0 <= i < |cut| ==> Strippable(cut[i]);
    InkOfBlank(cut);
    InkOfAppend(r, cut);
  }

  /**
   * Sanitizing keeps every ASCII character of the input other than whitespace
   * and NUL, in order, and adds none: only whitespace, NUL and non-ASCII characters change.
   */
  lemma SanitizeKeepsInk(s: string)
    ensures Sanitize(Some(s)).Some? && InkOf(Sanitize(Some(s)).value) == InkOf(s)
  {
    InkOfUniversalNewline(s);
    InkOfToAscii(UniversalNewline(s));
    InkOfCollapse(ToAscii(UniversalNewline(s)));
    var c := Collapse(ToAscii(UniversalNewline(s)));
    InkOfLStrip(c);
    InkOfRStrip(LStrip(c));
  }
}
