/**
 * The few Ruby and Rails String methods the ingester relies on, written out
 * with the behaviour that matters to it: `split(",")`, `blank?`,
 * `start_with?`, `downcase`, `gsub(" ", "_")` and `Integer#to_s`.
 */
module RubyText {
  import opened Wrappers

  /** The POSIX bracket class `[[:space:]]` on a Unicode string: the White_Space characters. */
  predicate IsSpace(c: char)
  {
    ('\t' <= c <= '\r') || c == ' ' || c == '\U{0085}' || c == '\U{00A0}' || c == '\U{1680}'
    || ('\U{2000}' <= c <= '\U{200A}') || c == '\U{2028}' || c == '\U{2029}' || c == '\U{202F}'
    || c == '\U{205F}' || c == '\U{3000}'
  }

  /** Rails `blank?` on a cell: nil, or a string made only of `[[:space:]]`. */
  predicate Blank(v: Option<string>)
  {
    match v
    case None => true
    case Some(s) => forall i :: 0 <= i < |s| ==> IsSpace(s[i])
  }

  lemma BlankCases()
    ensures Blank(None) && Blank(Some(""))
    ensures Blank(Some(" \t\n"))
    ensures !Blank(Some("x")) && !Blank(Some(" x "))
  {
    assert !IsSpace("x"[0]);
    assert !IsSpace(" x "[1]);
  }

  /** Every comma-separated field of `s`, empty ones included: one more field than commas. */
  function SplitAll(s: string): (r: seq<string>)
    ensures |r| >= 1
    ensures forall i :: 0 <= i < |r| ==> ',' !in r[i]
    decreases |s|
  {
    if |s| == 0 then [""]
    else if s[0] == ',' then [""] + SplitAll(s[1..])
    else
      var rest := SplitAll(s[1..]);
      [[s[0]] + rest[0]] + rest[1..]
  }

  /** Drops the empty strings at the end of a list of fields. */
  function DropTrailingEmpty(r: seq<string>): (t: seq<string>)
    ensures |t| <= |r| && t == r[..|t|]
    ensures |t| > 0 ==> t[|t| - 1] != ""
    ensures forall i :: |t| <= i < |r| ==> r[i] == ""
  {
    if |r| > 0 && r[|r| - 1] == "" then DropTrailingEmpty(r[..|r| - 1]) else r
  }

  /** Ruby `s.split(",")`: the fields of `s` with trailing empty fields removed. */
  function Split(s: string): (r: seq<string>)
  {
    DropTrailingEmpty(SplitAll(s))
  }

  /** `fs.join(",")`. */
  function Join(fs: seq<string>): string
  {
    if |fs| == 0 then "" else if |fs| == 1 then fs[0] else fs[0] + "," + Join(fs[1..])
  }

  /** Joining the fields again gives back the string: SplitAll loses nothing. */
  lemma {:induction false} JoinSplitAll(s: string)
    ensures Join(SplitAll(s)) == s
    decreases |s|
  {
    if |s| == 0 {
    } else if s[0] == ',' {
      JoinSplitAll(s[1..]);
      var rest := SplitAll(s[1..]);
      assert SplitAll(s) == [""] + rest;
      assert Join(SplitAll(s)) == "" + "," + Join(rest);
    } else {
      JoinSplitAll(s[1..]);
      var rest := SplitAll(s[1..]);
      var r := SplitAll(s);
      assert r == [[s[0]] + rest[0]] + rest[1..];
      if |rest| == 1 {
        assert Join(r) == [s[0]] + rest[0];
      } else {
        assert Join(rest) == rest[0] + "," + Join(rest[1..]);
        assert r[1..] == rest[1..];
        assert Join(r) == [s[0]] + rest[0] + "," + Join(rest[1..]);
        assert Join(r) == [s[0]] + (rest[0] + "," + Join(rest[1..]));
      }
      assert Join(r) == [s[0]] + Join(rest);
      assert s == [s[0]] + s[1..];
    }
  }

  /** Splitting a comma-free field followed by a comma keeps that field first. */
  lemma {:induction false} SplitAllCons(a: string, t: string)
    requires ',' !in a
    ensures SplitAll(a + "," + t) == [a] + SplitAll(t)
    decreases |a|
  {
    if |a| == 0 {
      assert a + "," + t == [','] + t;
      assert (a + "," + t)[1..] == t;
    } else {
      SplitAllCons(a[1..], t);
      var s := a + "," + t;
      assert s[0] == a[0] && s[1..] == a[1..] + "," + t;
      assert [a[0]] + a[1..] == a;
    }
  }

  /** A comma-free string is a single field. */
  lemma {:induction false} SplitAllSingle(a: string)
    requires ',' !in a
    ensures SplitAll(a) == [a]
    decreases |a|
  {
    if |a| > 0 {
      SplitAllSingle(a[1..]);
      assert [a[0]] + a[1..] == a;
    }
  }

  /**
   * Ruby's `split(",")` on four comma-free parts whose last is non-empty yields
   * exactly those four parts.
   */
  lemma SplitFour(a: string, b: string, c: string, d: string)
    requires ',' !in a && ',' !in b && ',' !in c && ',' !in d
    requires d != ""
    ensures Split(a + "," + b + "," + c + "," + d) == [a, b, c, d]
  {
    var cd := c + "," + d;
    var bcd := b + "," + cd;
    SplitAllSingle(d);
    SplitAllCons(c, d);
    SplitAllCons(b, cd);
    SplitAllCons(a, bcd);
    assert a + "," + b + "," + c + "," + d == a + "," + bcd;
    assert SplitAll(a + "," + bcd) == [a, b, c, d];
  }

  /** A trailing empty field is dropped: `"1,2,3,"` has three fields. */
  lemma SplitDropsTrailingEmpty()
    ensures Split("1,2,3,") == ["1", "2", "3"]
  {
    SplitAllSingle("");
    SplitAllCons("3", "");
    SplitAllCons("2", "3,");
    SplitAllCons("1", "2,3,");
    assert "3," == "3" + "," + "";
    assert "2,3," == "2" + "," + "3,";
    assert "1,2,3," == "1" + "," + "2,3,";
    assert SplitAll("1,2,3,") == ["1", "2", "3", ""];
  }

  /** Only empty fields: `",,,"` has none, and neither has `""`. */
  lemma SplitOnlyCommas()
    ensures Split(",,,") == [] && Split("") == []
  {
    SplitAllSingle("");
    SplitAllCons("", "");
    SplitAllCons("", ",");
    SplitAllCons("", ",,");
    assert "," == "" + "," + "";
    assert ",," == "" + "," + ",";
    assert ",,," == "" + "," + ",,";
    assert SplitAll(",,,") == ["", "", "", ""];
  }

  /** A leading empty field is kept: `",1,2,3"` has four fields, the first empty. */
  lemma SplitKeepsLeadingEmpty()
    ensures Split(",1,2,3") == ["", "1", "2", "3"]
  {
    SplitFour("", "1", "2", "3");
    assert ",1,2,3" == "" + "," + "1" + "," + "2" + "," + "3";
  }

  /** The texts of the elements of `xs`, concatenated in order. */
  function ConcatMap<T>(xs: seq<T>, f: T -> string): string
  {
    if |xs| == 0 then "" else ConcatMap(xs[..|xs| - 1], f) + f(xs[|xs| - 1])
  }

  lemma {:induction false} ConcatMapAppend<T>(a: seq<T>, b: seq<T>, f: T -> string)
    ensures ConcatMap(a + b, f) == ConcatMap(a, f) + ConcatMap(b, f)
    decreases |b|
  {
    if |b| == 0 {
      assert a + b == a;
    } else {
      var n := |b| - 1;
      var ab := a + b;
      assert ab[..|ab| - 1] == a + b[..n];
      assert ab[|ab| - 1] == b[n];
      calc {
        ConcatMap(ab, f);
        ConcatMap(a + b[..n], f) + f(b[n]);
        { ConcatMapAppend(a, b[..n], f); }
        (ConcatMap(a, f) + ConcatMap(b[..n], f)) + f(b[n]);
        ConcatMap(a, f) + (ConcatMap(b[..n], f) + f(b[n]));
        ConcatMap(a, f) + ConcatMap(b, f);
      }
    }
  }

  /** Splitting the elements at `i` splits the text. */
  lemma ConcatMapSplit<T>(xs: seq<T>, i: nat, f: T -> string)
    requires i <= |xs|
    ensures ConcatMap(xs, f) == ConcatMap(xs[..i], f) + ConcatMap(xs[i..], f)
  {
    assert xs == xs[..i] + xs[i..];
    ConcatMapAppend(xs[..i], xs[i..], f);
  }

  /** The first element's text comes first. */
  lemma ConcatMapCons<T>(xs: seq<T>, f: T -> string)
    requires |xs| > 0
    ensures ConcatMap(xs, f) == f(xs[0]) + ConcatMap(xs[1..], f)
  {
    ConcatMapSplit(xs, 1, f);
    var head := xs[..1];
    assert head[..0] == [];
    assert ConcatMap(head, f) == "" + f(xs[0]);
    assert "" + f(xs[0]) == f(xs[0]);
  }

  lemma ConcatMapAt<T>(xs: seq<T>, i: nat, f: T -> string)
    requires i < |xs|
    ensures ConcatMap(xs, f) == ConcatMap(xs[..i], f) + f(xs[i]) + ConcatMap(xs[i + 1..], f)
  {
    var pre, tail := ConcatMap(xs[..i], f), xs[i..];
    ConcatMapSplit(xs, i, f);
    ConcatMapCons(tail, f);
    assert tail[1..] == xs[i + 1..];
    assert ConcatMap(xs, f) == pre + (f(xs[i]) + ConcatMap(xs[i + 1..], f));
  }

  /** `s.start_with?(p)`. */
  predicate StartsWith(s: string, p: string)
  {
    |p| <= |s| && s[..|p|] == p
  }

  function DowncaseChar(c: char): (d: char)
  {
    if 'A' <= c <= 'Z' then (c as int + 32) as char else c
  }

  /** A header cell as a field key: lower-cased, each space turned into an underscore. */
  function HeaderKey(f: string): (k: string)
    ensures |k| == |f|
    ensures forall i :: 0 <= i < |k| ==> k[i] != ' ' && !('A' <= k[i] <= 'Z')
    ensures forall i :: 0 <= i < |k| ==> if f[i] == ' ' then k[i] == '_' else k[i] == DowncaseChar(f[i])
  {
    if |f| == 0 then ""
    else [if f[0] == ' ' then '_' else DowncaseChar(f[0])] + HeaderKey(f[1..])
  }

  function DigitChar(d: nat): char
    requires d < 10
  {
    ('0' as int + d) as char
  }

  /** `Integer#to_s` for a non-negative integer: its decimal digits, most significant first. */
  function NatToString(n: nat): (s: string)
    ensures |s| >= 1
    ensures forall i :: 0 <= i < |s| ==> '0' <= s[i] <= '9'
    ensures |s| > 1 ==> s[0] != '0'
    decreases n
  {
    if n < 10 then [DigitChar(n)] else NatToString(n / 10) + [DigitChar(n % 10)]
  }

  function DigitValue(c: char): nat
  {
    if '0' <= c <= '9' then c as int - '0' as int else 0
  }

  /** The value of a string of decimal digits. */
  function DecimalValue(s: string): nat
  {
    if |s| == 0 then 0 else DecimalValue(s[..|s| - 1]) * 10 + DigitValue(s[|s| - 1])
  }

  /** Reading the digits back gives the number: `to_s` is faithful. */
  lemma {:induction false} NatToStringValue(n: nat)
    ensures DecimalValue(NatToString(n)) == n
    decreases n
  {
    var s := NatToString(n);
    if n >= 10 {
      NatToStringValue(n / 10);
      assert s[..|s| - 1] == NatToString(n / 10);
      assert DigitValue(s[|s| - 1]) == n % 10;
      assert n == (n / 10) * 10 + n % 10;
    }
  }

  /** Distinct numbers print differently. */
  lemma NatToStringInjective(m: nat, n: nat)
    requires NatToString(m) == NatToString(n)
    ensures m == n
  {
    NatToStringValue(m);
    NatToStringValue(n);
  }
}
