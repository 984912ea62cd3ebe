/**
 * The request handling of the configuration web server that runs when WiFi cannot be joined:
 * URL decoding of form values, recognising the request, reading the query string of a
 * `/save` request and building the configuration that gets saved.
 *
 * Values are decoded one `%XX` escape to one character, the way the firmware does it: a form
 * field that a browser sent as UTF-8 comes back as one character per byte. Sockets, the access
 * point, the HTML pages, the three-second pause and the restart are not modelled.
 */
module ConfigServer {
  import opened Wrappers
  import opened Numerals
  import opened Config
  import opened Whitespace

  // ---------------------------------------------------------------------------------------
  // Python string primitives

  /** `s.replace("+", " ")` */
  function ReplacePlus(s: string): (r: string)
    ensures |r| == |s|
    ensures forall i :: 0 <= i < |s| ==> r[i] == (if s[i] == '+' then ' ' else s[i])
  {
    seq(|s|, i requires 0 <= i < |s| => if s[i] == '+' then ' ' else s[i])
  }

  /** The inverse of `Split`: the parts with `sep` between each two. */
  function Join(parts: seq<string>, sep: char): string
    requires |parts| >= 1
    decreases |parts|
  {
    if |parts| == 1 then parts[0] else parts[0] + [sep] + Join(parts[1..], sep)
  }

  /** `s.split(sep)`: the pieces between the occurrences of `sep`, at least one. */
  function Split(s: string, sep: char): (parts: seq<string>)
    ensures |parts| >= 1
    ensures forall k :: 0 <= k < |parts| ==> sep !in parts[k]
    ensures |parts| == 1 <==> sep !in s
    decreases |s|
  {
    if s == [] then [[]]
    else
      var rest := Split(s[1..], sep);
      if s[0] == sep then [[]] + rest
      else
        assert s == [s[0]] + s[1..];
        [[s[0]] + rest[0]] + rest[1..]
  }

  /** Joining the pieces of a split with the separator gives the text back. */
  lemma {:induction false} JoinSplit(s: string, sep: char)
    ensures Join(Split(s, sep), sep) == s
    decreases |s|
  {
    if s != [] {
      var rest := Split(s[1..], sep);
      JoinSplit(s[1..], sep);
      var parts := Split(s, sep);
      if s[0] == sep {
        assert parts == [[]] + rest && parts[1..] == rest;
      } else {
        assert parts == [[s[0]] + rest[0]] + rest[1..];
        if |rest| > 1 {
          assert parts[1..] == rest[1..];
          assert Join(rest, sep) == rest[0] + [sep] + Join(rest[1..], sep);
        }
      }
    }
  }

  /** Splitting a joined sequence of separator-free parts gives the parts back. */
  lemma {:induction false} SplitJoin(parts: seq<string>, sep: char)
    requires |parts| >= 1
    requires forall k :: 0 <= k < |parts| ==> sep !in parts[k]
    ensures Split(Join(parts, sep), sep) == parts
    decreases |parts|, |parts[0]|
  {
    var s := Join(parts, sep);
    if parts[0] == [] {
      if |parts| > 1 {
        assert s == [sep] + Join(parts[1..], sep);
        assert s[1..] == Join(parts[1..], sep);
        SplitJoin(parts[1..], sep);
        assert parts == [[]] + parts[1..];
      }
    } else {
      var shorter := [parts[0][1..]] + parts[1..];
      assert Join(shorter, sep) == s[1..] by {
        if |parts| > 1 {
          assert shorter[1..] == parts[1..];
        }
      }
      SplitJoin(shorter, sep);
      assert s[0] == parts[0][0] && s[0] != sep;
      assert parts[0] == [s[0]] + shorter[0];
      assert parts == [parts[0]] + shorter[1..];
    }
  }

  /** `s.split(sep, 1)` unpacked into two names: None when `sep` does not occur (the ValueError). */
  function SplitOnce(s: string, sep: char): (r: Option<(string, string)>)
    ensures r.None? <==> sep !in s
    ensures r.Some? ==> sep !in r.value.0 && r.value.0 + [sep] + r.value.1 == s
  {
    var parts := Split(s, sep);
    JoinSplit(s, sep);
    if |parts| == 1 then None else Some((parts[0], Join(parts[1..], sep)))
  }

  /** `sub` occurs in `s` at index `i`. */
  predicate OccursAt(s: string, sub: string, i: int) {
    0 <= i && i + |sub| <= |s| && s[i..i + |sub|] == sub
  }

  /** `s.find(sub)`: the lowest index where `sub` occurs, or -1. */
  function Find(s: string, sub: string): (r: int)
    ensures r == -1 || 0 <= r <= |s| - |sub|
    ensures r >= 0 ==> OccursAt(s, sub, r)
    ensures forall i :: 0 <= i && (r == -1 || i < r) ==> !OccursAt(s, sub, i)
  {
    FindFrom(s, sub, 0)
  }

  function FindFrom(s: string, sub: string, from: nat): (r: int)
    ensures r == -1 || from <= r <= |s| - |sub|
    ensures r >= 0 ==> OccursAt(s, sub, r)
    ensures forall i :: from <= i && (r == -1 || i < r) ==> !OccursAt(s, sub, i)
    decreases |s| - from
  {
    if from + |sub| > |s| then -1
    else if s[from..from + |sub|] == sub then from
    else FindFrom(s, sub, from + 1)
  }

  /** `s.find(prefix) == 0` is exactly "`s` starts with `prefix`". */
  lemma {:induction false} FindZeroIsPrefix(s: string, prefix: string)
    ensures Find(s, prefix) == 0 <==> prefix <= s
  {
    if prefix <= s {
      assert s[0..|prefix|] == prefix;
    }
  }

  // ---------------------------------------------------------------------------------------
  // Percent decoding (`_unquote_plus`)

  predicate IsHexDigit(c: char) {
    '0' <= c <= '9' || 'a' <= c <= 'f' || 'A' <= c <= 'F'
  }

  predicate AllHex(s: string) {
    forall i :: 0 <= i < |s| ==> IsHexDigit(s[i])
  }

  function HexDigitValue(c: char): (v: nat)
    requires IsHexDigit(c)
    ensures v < 16
  {
    if '0' <= c <= '9' then c as int - '0' as int
    else if 'a' <= c <= 'f' then c as int - 'a' as int + 10
    else c as int - 'A' as int + 10
  }

  /** The value of one or two hex digits. */
  function HexValue(h: string): (v: nat)
    requires 1 <= |h| <= 2 && AllHex(h)
    ensures v < 256
  {
    if |h| == 1 then HexDigitValue(h[0]) else HexDigitValue(h[0]) * 16 + HexDigitValue(h[1])
  }

  /**
   * `int(h, 16)` on the at most two characters `_unquote_plus` hands it: MicroPython's parser
   * with base 16, which also takes whitespace, a sign, a `0x` prefix and `_` between digits.
   * None is the ValueError `int` raises.
   */
  function HexInt(h: string): (r: Option<int>)
    requires |h| <= 2
    ensures r.Some? ==> -16 < r.value < 256
    ensures 1 <= |h| && AllHex(h) ==> r == Some(HexValue(h))
  {
    HexIntBound(h);
    if 1 <= |h| && AllHex(h) then HexDigitsRead(h); ParseNumber(h, 16)
    else ParseNumber(h, 16)
  }

  /** A hex digit is a digit of the same value to `int`. */
  lemma {:induction false} HexDigitOf(c: char)
    requires IsHexDigit(c)
    ensures DigitOf(c) == HexDigitValue(c) && InNumeral(c, 16) && !IsSpace(c)
  {
  }

  /** Two characters of the digit loop in base 16 are worth less than 256, one less than 16. */
  lemma {:induction false} ShortNumeral(s: string, i: nat, j: nat)
    requires i <= j <= |s| && j - i <= 2
    requires forall k :: i <= k < j ==> InNumeral(s[k], 16)
    ensures NumeralValue(s, i, j, 16) < (if j - i == 2 then 256 else 16)
  {
    if j - i == 2 {
      assert NumeralValue(s, i, j - 1, 16) < 16 by {
        assert NumeralValue(s, i, i, 16) == 0;
      }
    } else if j - i == 1 {
      assert NumeralValue(s, i, i, 16) == 0;
    }
  }

  /** What `int(h, 16)` can give for two characters. */
  lemma {:induction false} HexIntBound(h: string)
    requires |h| <= 2
    ensures ParseNumber(h, 16).Some? ==> -16 < ParseNumber(h, 16).value < 256
  {
    var a := TextStart(h, 0);
    var b := if a < |h| && (h[a] == '+' || h[a] == '-') then a + 1 else a;
    var (radix, c) := BasePrefix(h, b, 16);
    var e := NumeralEnd(h, c, radix);
    ShortNumeral(h, c, e);
  }

  /** One or two hex digits read as their hex value. */
  lemma {:induction false} HexDigitsRead(h: string)
    requires 1 <= |h| <= 2 && AllHex(h)
    ensures ParseNumber(h, 16) == Some(HexValue(h))
  {
    HexDigitOf(h[0]);
    assert TextStart(h, 0) == 0;
    if |h| == 2 {
      HexDigitOf(h[1]);
    }
    assert BasePrefix(h, 0, 16) == (16, 0);
    assert NumeralEnd(h, 0, 16) == |h|;
    assert NumeralValue(h, 0, 0, 16) == 0;
    if |h| == 2 {
      assert NumeralValue(h, 0, 1, 16) == HexDigitValue(h[0]);
    }
  }

  /** `chr(int(h, 16))` as a code: None when `int` raises, or `chr` does on a negative value. */
  function EscapedCode(h: string): (r: Option<nat>)
    requires |h| <= 2
    ensures r.None? <==> HexInt(h).None? || HexInt(h).value < 0
    ensures r.Some? ==> r.value < 256
    ensures 1 <= |h| && AllHex(h) ==> r == Some(HexValue(h))
  {
    match HexInt(h)
    case Some(v) => if v >= 0 then Some(v) else None
    case None => None
  }

  /**
   * One piece after a `%`: `chr(int(item[:2], 16)) + item[2:]` when that does not raise,
   * otherwise the piece kept as it was, `%` included.
   */
  function DecodeSegment(item: string): string {
    var head := if |item| < 2 then item else item[..2];
    match EscapedCode(head)
    case Some(code) => [code as char] + item[|head|..]
    case None => "%" + item
  }

  /** The decoded pieces, one after the other. */
  function DecodeSegments(items: seq<string>): string {
    ConcatMap(DecodeSegment, items)
  }

  /** The results of `f` on the items, one after the other. */
  function ConcatMap(f: string -> string, items: seq<string>): string {
    if items == [] then [] else ConcatMap(f, items[..|items| - 1]) + f(items[|items| - 1])
  }

  /** How many characters after a `%` an escape may use: two, fewer when another `%` comes first. */
  function Window(u: string): (w: nat)
    ensures w <= 2 && w <= |u|
    ensures forall k :: 0 <= k < w ==> u[k] != '%'
  {
    if u == [] || u[0] == '%' then 0 else if |u| == 1 || u[1] == '%' then 1 else 2
  }

  /**
   * Percent decoding as one left-to-right scan: at a `%` the characters in its window are
   * decoded as above when they form an escape and the scan goes on after them, so decoded
   * characters are never looked at again; a `%` that starts no escape stays as it is.
   */
  function PercentDecode(t: string): string
    decreases |t|
  {
    if t == [] then []
    else if t[0] != '%' then [t[0]] + PercentDecode(t[1..])
    else
      var u := t[1..];
      var w := Window(u);
      match EscapedCode(u[..w])
      case Some(code) => [code as char] + PercentDecode(u[w..])
      case None => "%" + PercentDecode(u)
  }

  /** What `_unquote_plus` computes: `+` means space, then the escapes are decoded. */
  function Unquote(s: string): string {
    PercentDecode(ReplacePlus(s))
  }

  /** Text without `%` passes through decoding unchanged. */
  lemma {:induction false} CopyPlain(p: string, rest: string)
    requires '%' !in p
    ensures PercentDecode(p + rest) == p + PercentDecode(rest)
    decreases |p|
  {
    if p != [] {
      assert p[0] != '%' && '%' !in p[1..];
      assert (p + rest)[0] == p[0] && (p + rest)[1..] == p[1..] + rest;
      CopyPlain(p[1..], rest);
      calc {
        PercentDecode(p + rest);
        [p[0]] + PercentDecode(p[1..] + rest);
        [p[0]] + (p[1..] + PercentDecode(rest));
        { assert p == [p[0]] + p[1..]; }
        p + PercentDecode(rest);
      }
    } else {
      assert p + rest == rest;
    }
  }

  /** The window after a `%` that starts a piece is the piece's first (at most two) characters. */
  lemma {:induction false} WindowOfSegment(item: string, rest: string)
    requires '%' !in item && (rest == [] || rest[0] == '%')
    ensures var head := if |item| < 2 then item else item[..2];
      Window(item + rest) == |head| && (item + rest)[..|head|] == head
  {
    var u := item + rest;
    if |item| >= 2 {
      assert u[0] == item[0] && u[1] == item[1] && item[0] != '%' && item[1] != '%';
    } else if |item| == 1 {
      assert u[0] == item[0] && item[0] != '%';
      assert |u| > 1 ==> u[1] == '%';
    } else {
      assert u == rest;
    }
  }

  /** Decoding a `%` piece that runs up to the next `%` (or the end) is `DecodeSegment`. */
  lemma {:induction false} DecodeOneSegment(item: string, rest: string)
    requires '%' !in item && (rest == [] || rest[0] == '%')
    ensures PercentDecode("%" + item + rest) == DecodeSegment(item) + PercentDecode(rest)
  {
    var t := "%" + item + rest;
    var u := item + rest;
    assert t[0] == '%' && t[1..] == u;
    var head := if |item| < 2 then item else item[..2];
    WindowOfSegment(item, rest);
    var w := Window(u);
    assert item[..w] == head;
    if EscapedCode(head).Some? {
      var c := [EscapedCode(head).value as char];
      assert DecodeSegment(item) == c + item[w..];
      DecodeEscapedWindow(item, rest, w);
      Regroup(c, item[w..], PercentDecode(rest));
    } else {
      assert DecodeSegment(item) == "%" + item;
      assert PercentDecode(t) == "%" + PercentDecode(u);
      CopyPlain(item, rest);
      Regroup("%", item, PercentDecode(rest));
    }
  }

  /** Concatenation regrouped, kept apart from the large terms of the decoding proofs. */
  lemma {:induction false} Regroup(a: string, b: string, c: string)
    ensures a + (b + c) == (a + b) + c
  {
  }

  lemma {:induction false} DecodeEscapedWindow(item: string, rest: string, w: nat)
    requires '%' !in item && w <= |item| && w <= 2
    requires Window(item + rest) == w && (item + rest)[..w] == item[..w]
    requires EscapedCode(item[..w]).Some?
    ensures PercentDecode("%" + item + rest)
         == [EscapedCode(item[..w]).value as char] + (item[w..] + PercentDecode(rest))
  {
    var t := "%" + item + rest;
    assert t[0] == '%' && t[1..] == item + rest;
    assert t[1..][w..] == item[w..] + rest;
    assert '%' !in item[w..];
    CopyPlain(item[w..], rest);
  }

  lemma {:induction false} ConcatMapCons(f: string -> string, x: string, ys: seq<string>)
    ensures ConcatMap(f, [x] + ys) == f(x) + ConcatMap(f, ys)
    decreases |ys|
  {
    if ys != [] {
      var xs := [x] + ys;
      assert xs[..|xs| - 1] == [x] + ys[..|ys| - 1];
      ConcatMapCons(f, x, ys[..|ys| - 1]);
    } else {
      assert [x][..0] == [];
    }
  }

  /** One more item, after a fixed prefix. */
  lemma {:induction false} ConcatMapSnoc(f: string -> string, items: seq<string>, i: nat, prefix: string)
    requires i < |items|
    ensures prefix + ConcatMap(f, items[..i + 1]) == prefix + ConcatMap(f, items[..i]) + f(items[i])
  {
    assert items[..i + 1][..i] == items[..i];
  }

  /** Decoding `%` followed by `%`-free pieces joined by `%` decodes piece by piece. */
  lemma {:induction false} DecodeEscapedPieces(items: seq<string>)
    requires |items| >= 1 && forall k :: 0 <= k < |items| ==> '%' !in items[k]
    ensures PercentDecode("%" + Join(items, '%')) == DecodeSegments(items)
    decreases |items|
  {
    ConcatMapCons(DecodeSegment, items[0], items[1..]);
    assert items == [items[0]] + items[1..];
    if |items| == 1 {
      DecodeOneSegment(items[0], []);
      assert "%" + items[0] + [] == "%" + Join(items, '%');
      assert DecodeSegments(items[1..]) == [];
    } else {
      var rest := "%" + Join(items[1..], '%');
      assert Join(items, '%') == items[0] + "%" + Join(items[1..], '%');
      Regroup(items[0], "%", Join(items[1..], '%'));
      Regroup("%", items[0], rest);
      DecodeOneSegment(items[0], rest);
      DecodeEscapedPieces(items[1..]);
    }
  }

  /** The piecewise decoding of the split text is the decoding of the whole text. */
  lemma {:induction false} DecodeSplit(t: string)
    ensures var parts := Split(t, '%'); PercentDecode(t) == parts[0] + DecodeSegments(parts[1..])
  {
    var parts := Split(t, '%');
    JoinSplit(t, '%');
    if |parts| == 1 {
      CopyPlain(t, []);
      assert t + [] == t;
    } else {
      var rest := "%" + Join(parts[1..], '%');
      assert t == parts[0] + rest;
      CopyPlain(parts[0], rest);
      DecodeEscapedPieces(parts[1..]);
    }
  }

  /** The loop of `_unquote_plus` over the pieces after the first. */
  method DecodePieces(parts: seq<string>) returns (res: string)
    requires |parts| >= 1
    ensures res == parts[0] + DecodeSegments(parts[1..])
  {
    var items := parts[1..];
    res := parts[0];
    for i := 0 to |items|
      invariant res == parts[0] + DecodeSegments(items[..i])
    {
      ConcatMapSnoc(DecodeSegment, items, i, parts[0]);
      res := res + DecodeSegment(items[i]);
    }
    assert items[..|items|] == items;
  }

  /**
   * `_unquote_plus`: replaces `+` by a space, splits at `%` and decodes each piece after the
   * first on its own.
   */
  method UnquotePlus(s: string) returns (res: string)
    ensures res == Unquote(s)
  {
    var t := ReplacePlus(s);
    var parts := Split(t, '%');
    DecodeSplit(t);
    if |parts| == 1 {
      JoinSplit(t, '%');
      return t;
    }
    res := DecodePieces(parts);
  }

  /** Without `%`, the only change is `+` becoming a space. */
  lemma {:induction false} UnquoteWithoutPercent(s: string)
    requires '%' !in s
    ensures Unquote(s) == ReplacePlus(s)
  {
    var t := ReplacePlus(s);
    assert '%' !in t by {
      forall i | 0 <= i < |t|
        ensures t[i] != '%'
      {
        assert s[i] != '%';
      }
    }
    CopyPlain(t, []);
    assert t + [] == t;
  }

  lemma {:induction false} ReplacePlusAppend(a: string, b: string)
    ensures ReplacePlus(a + b) == ReplacePlus(a) + ReplacePlus(b)
  {
  }

  /** A two-digit escape decodes to one character, and decoding goes on after it. */
  lemma {:induction false} DecodeEscape(h: string, rest: string)
    requires |h| == 2 && AllHex(h)
    ensures PercentDecode("%" + h + rest) == [HexValue(h) as char] + PercentDecode(rest)
  {
    var t := "%" + h + rest;
    assert t[0] == '%' && t[1..] == h + rest;
    assert (h + rest)[..2] == h && (h + rest)[2..] == rest;
  }

  /** An escape becomes one character that is not decoded again, even when it is `%` or `+`. */
  lemma {:induction false} EscapeIsFinal(h: string, rest: string)
    requires |h| == 2 && AllHex(h)
    ensures Unquote("%" + h + rest) == [HexValue(h) as char] + Unquote(rest)
  {
    ReplacePlusAppend("%" + h, rest);
    assert ReplacePlus("%" + h) == "%" + h;
    DecodeEscape(h, ReplacePlus(rest));
  }

  /** An escaped `+` is a plus sign, not a space. */
  lemma {:induction false} UnquoteEscapedPlus(rest: string)
    ensures Unquote("%2B" + rest) == "+" + Unquote(rest)
  {
    EscapeIsFinal("2B", rest);
    assert "%" + "2B" == "%2B" && HexValue("2B") == 43;
  }

  /** An escaped `%` is not decoded a second time, whatever follows it. */
  lemma {:induction false} UnquoteEscapedPercent(rest: string)
    ensures Unquote("%25" + rest) == "%" + Unquote(rest)
  {
    EscapeIsFinal("25", rest);
    assert "%" + "25" == "%25" && HexValue("25") == 37;
  }

  /** `+` is a space; a `%` at the end is kept. */
  lemma {:induction false} UnquoteLiteralExamples()
    ensures Unquote("a+b") == "a b"
    ensures Unquote("100%") == "100%"
  {
    UnquoteWithoutPercent("a+b");
    var r := ReplacePlus("a+b");
    assert r[0] == 'a' && r[1] == ' ' && r[2] == 'b';
    assert HexInt("") == None;
  }

  /** A `%` with no hex digits after it is kept. */
  lemma {:induction false} UnquoteBadEscape()
    ensures Unquote("%zz") == "%zz"
  {
    assert HexInt("zz") == None;
    UnquoteShortEscape("zz");
    ReplacePlusPair('z', 'z');
    assert "%" + "zz" == "%zz" && ['z', 'z'] == "zz";
  }

  /** `+` to space on two characters. */
  lemma {:induction false} ReplacePlusPair(x: char, y: char)
    ensures ReplacePlus([x, y]) == [if x == '+' then ' ' else x, if y == '+' then ' ' else y]
  {
    var r := ReplacePlus([x, y]);
    assert r[0] == (if x == '+' then ' ' else x) && r[1] == (if y == '+' then ' ' else y);
  }

  /** A `%` and one or two more characters, none of them a `%`: the escape they form, or the text as it was. */
  lemma {:induction false} UnquoteShortEscape(u: string)
    requires 1 <= |u| <= 2 && '%' !in u
    ensures var v := ReplacePlus(u);
            Unquote("%" + u) == (match EscapedCode(v) case Some(c) => [c as char] case None => "%" + v)
  {
    var v := ReplacePlus(u);
    ReplacePlusAppend("%", u);
    assert ReplacePlus("%") == "%";
    var t := "%" + v;
    assert t[0] == '%' && t[1..] == v;
    assert '%' !in v by {
      forall i | 0 <= i < |v|
        ensures v[i] != '%'
      {
        assert u[i] != '%';
      }
    }
    assert Window(v) == |v| && v[..|v|] == v && v[|v|..] == [];
    if EscapedCode(v).None? {
      CopyPlain(v, []);
      assert v + [] == v;
    }
  }

  /** The digit loop skips `_`: an underscore before or after a hex digit, or alone, reads as a number. */
  lemma {:induction false} HexIntUnderscore(d: char)
    requires IsHexDigit(d)
    ensures HexInt(['_', d]) == Some(HexDigitValue(d))
    ensures HexInt([d, '_']) == Some(HexDigitValue(d))
    ensures HexInt("_") == Some(0)
  {
    HexDigitOf(d);
    var h := ['_', d];
    assert TextStart(h, 0) == 0 && BasePrefix(h, 0, 16) == (16, 0);
    assert NumeralEnd(h, 0, 16) == 2 && TextStart(h, 2) == 2;
    assert NumeralValue(h, 0, 1, 16) == 0;
    var g := [d, '_'];
    assert TextStart(g, 0) == 0 && BasePrefix(g, 0, 16) == (16, 0);
    assert NumeralEnd(g, 0, 16) == 2 && TextStart(g, 2) == 2;
    assert NumeralValue(g, 0, 1, 16) == HexDigitValue(d);
    var u := "_";
    assert TextStart(u, 0) == 0 && BasePrefix(u, 0, 16) == (16, 0);
    assert NumeralEnd(u, 0, 16) == 1 && TextStart(u, 1) == 1;
  }

  /** Whitespace on either side of a hex digit is skipped. */
  lemma {:induction false} HexIntSpaced(d: char)
    requires IsHexDigit(d)
    ensures HexInt([' ', d]) == Some(HexDigitValue(d)) && HexInt([d, ' ']) == Some(HexDigitValue(d))
  {
    HexDigitOf(d);
    var h := [' ', d];
    assert TextStart(h, 1) == 1 && TextStart(h, 0) == 1 && BasePrefix(h, 1, 16) == (16, 1);
    assert NumeralEnd(h, 1, 16) == 2 && TextStart(h, 2) == 2;
    assert NumeralValue(h, 1, 1, 16) == 0;
    SpacedHexDigit(d);
  }

  /** A hex digit and a space after it. */
  lemma {:induction false} SpacedHexDigit(d: char)
    requires IsHexDigit(d)
    ensures HexInt([d, ' ']) == Some(HexDigitValue(d))
  {
    HexDigitOf(d);
    var g := [d, ' '];
    assert TextStart(g, 0) == 0 && BasePrefix(g, 0, 16) == (16, 0);
    assert NumeralEnd(g, 1, 16) == 1 && NumeralEnd(g, 0, 16) == 1;
    assert TextStart(g, 2) == 2 && TextStart(g, 1) == 2;
    assert NumeralValue(g, 0, 0, 16) == 0;
  }

  /** A sign before one hex digit is applied. */
  lemma {:induction false} SignedHexDigit(sign: char, d: char)
    requires (sign == '+' || sign == '-') && IsHexDigit(d)
    ensures HexInt([sign, d]) == Some(if sign == '-' then 0 - HexDigitValue(d) else HexDigitValue(d))
  {
    HexDigitOf(d);
    var h := [sign, d];
    assert TextStart(h, 0) == 0 && BasePrefix(h, 1, 16) == (16, 1);
    assert NumeralEnd(h, 1, 16) == 2 && TextStart(h, 2) == 2;
    assert NumeralValue(h, 1, 1, 16) == 0;
  }

  /** A `0x` prefix with no digit after it is a ValueError. */
  lemma {:induction false} HexIntBarePrefix()
    ensures HexInt("0x") == None && HexInt("0X") == None
  {
    assert TextStart("0x", 0) == 0 && BasePrefix("0x", 0, 16) == (16, 2);
    assert TextStart("0X", 0) == 0 && BasePrefix("0X", 0, 16) == (16, 2);
  }

  /**
   * Quirks of `int` inside an escape: it skips the space a `+` became, so `%+` and a hex digit
   * is that digit's character; a `-` makes the value negative, so `chr` fails and the text stays,
   * unless the digit is 0.
   */
  lemma {:induction false} UnquoteSignQuirks(d: char)
    requires IsHexDigit(d)
    ensures Unquote(['%', '+', d]) == [HexDigitValue(d) as char]
    ensures d != '0' ==> Unquote(['%', '-', d]) == ['%', '-', d]
  {
    HexIntSpaced(d);
    SignedHexDigit('-', d);
    UnquoteShortEscape(['+', d]);
    ReplacePlusPair('+', d);
    assert ReplacePlus(['+', d]) == [' ', d];
    assert ['%'] + ['+', d] == ['%', '+', d];
    assert EscapedCode([' ', d]) == Some(HexDigitValue(d));
    if d != '0' {
      assert HexDigitValue(d) > 0;
      assert EscapedCode(['-', d]) == None;
      UnquoteShortEscape(['-', d]);
      ReplacePlusPair('-', d);
      assert ReplacePlus(['-', d]) == ['-', d];
      assert ['%'] + ['-', d] == ['%', '-', d];
    }
  }

  /** The digit loop skips `_`: an underscore next to a hex digit in an escape is ignored. */
  lemma {:induction false} UnquoteUnderscoreQuirks(d: char)
    requires IsHexDigit(d)
    ensures Unquote(['%', '_', d]) == [HexDigitValue(d) as char]
    ensures Unquote(['%', d, '_']) == [HexDigitValue(d) as char]
  {
    HexIntUnderscore(d);
    UnquoteShortEscape(['_', d]);
    ReplacePlusPair('_', d);
    assert ReplacePlus(['_', d]) == ['_', d];
    assert ['%'] + ['_', d] == ['%', '_', d];
    UnquoteShortEscape([d, '_']);
    ReplacePlusPair(d, '_');
    assert ReplacePlus([d, '_']) == [d, '_'];
    assert ['%'] + [d, '_'] == ['%', d, '_'];
  }

  // ---------------------------------------------------------------------------------------
  // What a browser sends: form encoding of ASCII text

  const HEX_DIGITS: string := "0123456789ABCDEF"

  /** Characters a form encoder sends as they are. */
  predicate IsUnreserved(c: char) {
    'a' <= c <= 'z' || 'A' <= c <= 'Z' || '0' <= c <= '9' || c == '-' || c == '.' || c == '_' || c == '*'
  }

  predicate IsAscii(s: string) {
    forall i :: 0 <= i < |s| ==> s[i] as int < 128
  }

  /** `application/x-www-form-urlencoded` for one ASCII character. */
  function FormEncodeChar(c: char): (e: string)
    requires c as int < 128
    ensures '%' in e ==> e[0] == '%' && |e| == 3
  {
    if c == ' ' then "+"
    else if IsUnreserved(c) then [c]
    else "%" + [HEX_DIGITS[c as int / 16], HEX_DIGITS[c as int % 16]]
  }

  function FormEncode(s: string): string
    requires IsAscii(s)
  {
    if s == [] then [] else FormEncodeChar(s[0]) + FormEncode(s[1..])
  }

  lemma {:induction false} HexDigitsValues(d: nat)
    requires d < 16
    ensures IsHexDigit(HEX_DIGITS[d]) && HexDigitValue(HEX_DIGITS[d]) == d
  {
  }

  /** Decoding one encoded character gives it back, whatever follows. */
  lemma {:induction false} DecodeEncodedChar(c: char, rest: string)
    requires c as int < 128
    ensures PercentDecode(ReplacePlus(FormEncodeChar(c)) + rest) == [c] + PercentDecode(rest)
  {
    var e := FormEncodeChar(c);
    if c == ' ' {
      assert ReplacePlus(e) == " ";
      CopyPlain(" ", rest);
    } else if IsUnreserved(c) {
      assert ReplacePlus(e) == [c];
      CopyPlain([c], rest);
    } else {
      var h := [HEX_DIGITS[c as int / 16], HEX_DIGITS[c as int % 16]];
      HexDigitsValues(c as int / 16);
      HexDigitsValues(c as int % 16);
      assert AllHex(h);
      assert ReplacePlus(e) == "%" + h;
      DecodeEscape(h, rest);
      assert HexValue(h) == c as int;
    }
  }

  /** `_unquote_plus` recovers every ASCII value a browser form-encodes. */
  lemma {:induction false} UnquoteFormEncode(s: string)
    requires IsAscii(s)
    ensures Unquote(FormEncode(s)) == s
    decreases |s|
  {
    if s != [] {
      var e := FormEncodeChar(s[0]);
      ReplacePlusAppend(e, FormEncode(s[1..]));
      DecodeEncodedChar(s[0], ReplacePlus(FormEncode(s[1..])));
      UnquoteFormEncode(s[1..]);
      assert s == [s[0]] + s[1..];
    }
  }

  // ---------------------------------------------------------------------------------------
  // Requests

  /** The index of the first `c` in `s`. */
  function FirstIndex(s: string, c: char): (i: nat)
    requires c in s
    ensures i < |s| && s[i] == c && c !in s[..i]
  {
    if s[0] == c then 0
    else
      assert c in s[1..] by {
        var k :| 0 <= k < |s| && s[k] == c;
        assert s[1..][k - 1] == c;
      }
      var i := FirstIndex(s[1..], c) + 1;
      assert s[..i] == [s[0]] + s[1..][..i - 1];
      i
  }

  /** The first piece of a split runs up to the first separator, or is everything. */
  lemma {:induction false} SplitHead(s: string, sep: char)
    ensures var head := Split(s, sep)[0];
      |head| <= |s| && head == s[..|head|] && (sep in s ==> |head| == FirstIndex(s, sep)) && (sep !in s ==> head == s)
  {
    var parts := Split(s, sep);
    JoinSplit(s, sep);
    if |parts| > 1 {
      var head := parts[0];
      assert s == head + [sep] + Join(parts[1..], sep);
      var i := FirstIndex(s, sep);
      assert s[|head|] == sep;
      assert i == |head|;
    }
  }

  /**
   * The query string of a `/save` request: `request.split("?")[1].split(" ")[0]`, the longest
   * stretch after the first `?` with neither a space nor another `?`.
   */
  function QueryString(request: string): (q: string)
    requires '?' in request
    ensures var start := FirstIndex(request, '?') + 1;
      start + |q| <= |request| && q == request[start..start + |q|]
      && (start + |q| == |request| || request[start + |q|] == ' ' || request[start + |q|] == '?')
    ensures ' ' !in q && '?' !in q
  {
    var parts := Split(request, '?');
    AfterFirstMark(request, '?');
    QueryStringSpan(request, parts);
    Split(parts[1], ' ')[0]
  }

  /** The first space-separated piece after the first `?` is a stretch of the request ending at a space, a `?` or the end. */
  lemma {:induction false} QueryStringSpan(request: string, parts: seq<string>)
    requires '?' in request && parts == Split(request, '?') && |parts| >= 2
    requires request[FirstIndex(request, '?') + 1..] == Join(parts[1..], '?')
    ensures var start := FirstIndex(request, '?') + 1; var q := Split(parts[1], ' ')[0];
      start + |q| <= |request| && q == request[start..start + |q|]
      && (start + |q| == |request| || request[start + |q|] == ' ' || request[start + |q|] == '?')
      && ' ' !in q && '?' !in q
  {
    var start := FirstIndex(request, '?') + 1;
    var tail := Join(parts[1..], '?');
    var piece := parts[1];
    assert parts[1..][0] == piece;
    JoinHead(parts[1..], '?');
    SplitHead(piece, ' ');
    assert '?' !in piece;
    PrefixOfPrefix(request, start, tail, piece, Split(piece, ' ')[0]);
  }

  /**
   * A prefix `q` of a prefix `piece` of the text from `start` on is a stretch of the text,
   * ending where `q` stops short of `piece` (at a space) or `piece` of the text (at a `?`).
   */
  lemma {:induction false} PrefixOfPrefix(request: string, start: nat, tail: string, piece: string, q: string)
    requires start <= |request| && request[start..] == tail
    requires |piece| <= |tail| && tail[..|piece|] == piece && (|piece| == |tail| || tail[|piece|] == '?')
    requires |q| <= |piece| && q == piece[..|q|] && (|q| == |piece| || piece[|q|] == ' ')
    ensures start + |q| <= |request| && q == request[start..start + |q|]
    ensures start + |q| == |request| || request[start + |q|] == ' ' || request[start + |q|] == '?'
  {
    assert request[start..start + |q|] == tail[..|q|];
    assert tail[..|q|] == piece[..|q|];
    if |q| < |piece| {
      assert request[start + |q|] == tail[|q|] == piece[|q|];
    } else if |piece| < |tail| {
      assert request[start + |q|] == tail[|piece|];
    }
  }

  /** What follows the first separator is the rest of the pieces, joined again. */
  lemma {:induction false} AfterFirstMark(s: string, sep: char)
    requires sep in s
    ensures var parts := Split(s, sep);
      |parts| >= 2 && s[FirstIndex(s, sep) + 1..] == Join(parts[1..], sep)
  {
    var parts := Split(s, sep);
    JoinSplit(s, sep);
    SplitHead(s, sep);
    assert s == parts[0] + [sep] + Join(parts[1..], sep);
  }

  /** A joined text starts with its first piece, followed by the separator when more pieces follow. */
  lemma {:induction false} JoinHead(parts: seq<string>, sep: char)
    requires |parts| >= 1
    ensures var s := Join(parts, sep);
      |parts[0]| <= |s| && s[..|parts[0]|] == parts[0]
      && (|parts| == 1 ==> s == parts[0])
      && (|parts| > 1 ==> |parts[0]| < |s| && s[|parts[0]|] == sep)
  {
  }

  /** How the server tells requests apart, by what the request text starts with. */
  datatype RequestKind = SaveRequest | FormRequest | OtherRequest

  function Classify(request: string): (k: RequestKind)
    ensures k == SaveRequest <==> "GET /save?" <= request
    ensures k == FormRequest <==> "GET / HTTP" <= request
  {
    FindZeroIsPrefix(request, "GET /save?");
    FindZeroIsPrefix(request, "GET / HTTP");
    if Find(request, "GET /save?") == 0 then SaveRequest
    else if Find(request, "GET / HTTP") == 0 then FormRequest
    else OtherRequest
  }

  /** A request classified as a save request has a query string. */
  lemma {:induction false} SaveRequestHasQuery(request: string)
    requires Classify(request) == SaveRequest
    ensures '?' in request && FirstIndex(request, '?') == 9
  {
    assert request[9] == '?';
    assert '?' !in request[..9] by {
      assert request[..9] == "GET /save";
    }
  }

  // ---------------------------------------------------------------------------------------
  // Form parameters

  type Params = map<string, string>

  /** Every `&`-separated pair has an `=`, so `k, v = pair.split("=", 1)` succeeds. */
  predicate AllPairs(pairs: seq<string>) {
    forall i :: 0 <= i < |pairs| ==> '=' in pairs[i]
  }

  /** The name before the first `=` of a pair, kept as it was sent. */
  function Key(pair: string): string
    requires '=' in pair
  {
    pair[..FirstIndex(pair, '=')]
  }

  /** The still encoded value after the first `=` of a pair. */
  function RawValue(pair: string): string
    requires '=' in pair
  {
    pair[FirstIndex(pair, '=') + 1..]
  }

  /** `pair.split("=", 1)` separates the pair into its name and its raw value. */
  lemma {:induction false} SplitOnceKeyValue(pair: string)
    requires '=' in pair
    ensures SplitOnce(pair, '=') == Some((Key(pair), RawValue(pair)))
  {
    var kv := SplitOnce(pair, '=').value;
    var i := FirstIndex(pair, '=');
    assert pair[|kv.0|] == '=';
    assert |kv.0| == i;
    assert pair == kv.0 + "=" + kv.1;
    assert pair[..i] == kv.0 && pair[i + 1..] == kv.1;
  }

  /**
   * The dictionary the loop over the pairs builds, later pairs overwriting earlier ones, with
   * `decode` applied to each value (`Unquote` in the server); None when some pair has no `=`
   * (the ValueError that turns into the error page).
   */
  function ParseParams(pairs: seq<string>, decode: string -> string): (r: Option<Params>)
    ensures r.Some? <==> AllPairs(pairs)
  {
    if pairs == [] then Some(map[])
    else
      var prev := ParseParams(pairs[..|pairs| - 1], decode);
      var last := pairs[|pairs| - 1];
      if '=' !in last || prev.None? then None
      else Some(prev.value[Key(last) := decode(RawValue(last))])
  }

  /** The dictionary after a pair is the dictionary before it with that pair stored. */
  lemma {:induction false} ParamsStep(pairs: seq<string>, decode: string -> string)
    requires AllPairs(pairs) && pairs != []
    ensures AllPairs(pairs[..|pairs| - 1])
    ensures var last := pairs[|pairs| - 1];
      ParseParams(pairs, decode).value == ParseParams(pairs[..|pairs| - 1], decode).value[Key(last) := decode(RawValue(last))]
  {
  }

  /** Every pair's name is a key of the dictionary. */
  lemma {:induction false} ParamsKeysPresent(pairs: seq<string>, decode: string -> string)
    requires AllPairs(pairs)
    ensures forall i :: 0 <= i < |pairs| ==> Key(pairs[i]) in ParseParams(pairs, decode).value
  {
    if pairs != [] {
      var n := |pairs| - 1;
      var init := pairs[..n];
      ParamsStep(pairs, decode);
      ParamsKeysPresent(init, decode);
      var r := ParseParams(pairs, decode).value;
      forall i | 0 <= i < n
        ensures Key(pairs[i]) in r
      {
        assert pairs[i] == init[i];
      }
    }
  }

  /** Every key of the dictionary is the name of some pair. */
  lemma {:induction false} ParamsKeysNamed(pairs: seq<string>, decode: string -> string)
    requires AllPairs(pairs)
    ensures forall key :: key in ParseParams(pairs, decode).value ==> exists i :: 0 <= i < |pairs| && Key(pairs[i]) == key
  {
    if pairs != [] {
      var n := |pairs| - 1;
      var init := pairs[..n];
      ParamsStep(pairs, decode);
      ParamsKeysNamed(init, decode);
      var r := ParseParams(pairs, decode).value;
      forall key | key in r
        ensures exists i :: 0 <= i < |pairs| && Key(pairs[i]) == key
      {
        if key != Key(pairs[n]) {
          var i :| 0 <= i < |init| && Key(init[i]) == key;
          assert pairs[i] == init[i];
        }
      }
    }
  }

  /** Each name holds the decoded value of the last pair naming it: later pairs overwrite earlier ones. */
  lemma {:induction false} ParamsLastWins(pairs: seq<string>, decode: string -> string, i: nat)
    requires AllPairs(pairs) && i < |pairs|
    requires forall j :: i < j < |pairs| ==> Key(pairs[j]) != Key(pairs[i])
    ensures Key(pairs[i]) in ParseParams(pairs, decode).value
    ensures ParseParams(pairs, decode).value[Key(pairs[i])] == decode(RawValue(pairs[i]))
  {
    var n := |pairs| - 1;
    ParamsStep(pairs, decode);
    if i < n {
      var init := pairs[..n];
      assert pairs[i] == init[i];
      assert Key(pairs[n]) != Key(pairs[i]);
      forall j | i < j < |init|
        ensures Key(init[j]) != Key(init[i])
      {
        assert init[j] == pairs[j];
      }
      ParamsLastWins(init, decode, i);
    }
  }

  /**
   * The loop of the `/save` handler: splits the query string at `&`, each pair at its first
   * `=`, and stores the decoded value under the name; the first pair without `=` aborts it.
   */
  method ParseQuery(query: string) returns (params: Option<Params>)
    ensures params == ParseParams(Split(query, '&'), Unquote)
  {
    var pairs := Split(query, '&');
    var acc: Params := map[];
    for i := 0 to |pairs|
      invariant ParseParams(pairs[..i], Unquote) == Some(acc)
    {
      var kv := SplitOnce(pairs[i], '=');
      if kv.None? {
        return None;
      }
      var k, v := kv.value.0, kv.value.1;
      SplitOnceKeyValue(pairs[i]);
      var value := UnquotePlus(v);
      assert pairs[..i + 1][..i] == pairs[..i];
      acc := acc[k := value];
    }
    assert pairs[..|pairs|] == pairs;
    return Some(acc);
  }

  /** A query string that ends in `&`, or is empty, has a pair without `=`. */
  lemma {:induction false} EmptyPairFails(query: string)
    requires query == [] || query[|query| - 1] == '&'
    ensures ParseParams(Split(query, '&'), Unquote).None?
  {
    var pairs := Split(query, '&');
    var last := pairs[|pairs| - 1];
    if query == [] {
      assert pairs == [[]];
    } else {
      var n := |query| - 1;
      assert query == query[..n] + "&";
      LastPieceAfterTrailingSeparator(query[..n], '&');
    }
  }

  lemma {:induction false} LastPieceAfterTrailingSeparator(s: string, sep: char)
    ensures var parts := Split(s + [sep], sep); parts[|parts| - 1] == []
    decreases |s|
  {
    if s != [] {
      assert (s + [sep])[1..] == s[1..] + [sep];
      LastPieceAfterTrailingSeparator(s[1..], sep);
    } else {
      assert ([] + [sep])[1..] == [];
    }
  }

  // ---------------------------------------------------------------------------------------
  // The new configuration

  /** One entry of the dictionary the `/save` handler merges into the defaults. */
  datatype FormField = FormField(name: string, key: string, default: Value)

  /**
   * The entries of that dictionary: the form field read, the configuration key written and
   * the value used when the form lacks the field. The `mqtt_port` entry is replaced right
   * after the merge, so it is left to `Port`.
   */
  const FORM_FIELDS: seq<FormField> := [
    FormField("ssid", "wifi_ssid", Str("")),
    FormField("pass", "wifi_pass", Str("")),
    FormField("nfc_mqtt_topic_base", "nfc_mqtt_topic_base", DEFAULT_CONFIG["nfc_mqtt_topic_base"]),
    FormField("mqtt_broker", "mqtt_broker", Str("")),
    FormField("mqtt_user", "mqtt_user", Str("")),
    FormField("mqtt_pass", "mqtt_pass", Str("")),
    FormField("mqtt_client_id", "mqtt_client_id", DEFAULT_CONFIG["mqtt_client_id"]),
    FormField("mqtt_topic_temp", "mqtt_topic_temp", DEFAULT_CONFIG["mqtt_topic_temp"]),
    FormField("mqtt_topic_humidity", "mqtt_topic_humidity", DEFAULT_CONFIG["mqtt_topic_humidity"])
  ]

  /** `params.get(name, default)` stored as a configuration value. */
  function Get(params: Params, name: string, default: Value): Value {
    if name in params then Str(params[name]) else default
  }

  /** The port: the `mqtt_port` field read as an integer, the default port when absent or not a number. */
  function Port(params: Params): (v: Value)
    ensures v.Int?
  {
    if "mqtt_port" in params then
      match ParseInt(params["mqtt_port"])
      case Some(n) => Int(n)
      case None => DEFAULT_CONFIG["mqtt_port"]
    else DEFAULT_CONFIG["mqtt_port"]
  }

  /** The text entries of the dictionary, read from the form. */
  function FormUpdate(params: Params): map<string, Value> {
    map i | 0 <= i < |FORM_FIELDS| :: FORM_FIELDS[i].key := Get(params, FORM_FIELDS[i].name, FORM_FIELDS[i].default)
  }

  /** The configuration the `/save` handler writes: the defaults updated from the form. */
  function NewConfig(params: Params): (r: ConfigMap)
    ensures r.Keys == DEFAULT_CONFIG.Keys
  {
    FormFieldsAreDefaults();
    FormFieldsCoverConfig();
    (DEFAULT_CONFIG + FormUpdate(params))["mqtt_port" := Port(params)]
  }

  /** Each text entry holds what the form sent, or the key's default when the form left it out. */
  lemma {:induction false} NewConfigFields(params: Params)
    ensures forall i :: 0 <= i < |FORM_FIELDS| ==> var f := FORM_FIELDS[i];
      NewConfig(params)[f.key] == if f.name in params then Str(params[f.name]) else DEFAULT_CONFIG[f.key]
  {
    FormFieldsAreDefaults();
    FormKeysDistinct();
    var update := FormUpdate(params);
    forall i | 0 <= i < |FORM_FIELDS|
      ensures update[FORM_FIELDS[i].key] == Get(params, FORM_FIELDS[i].name, FORM_FIELDS[i].default)
    {
      var f := FORM_FIELDS[i];
      assert f.key in update;
    }
  }

  /** Every form entry writes a configuration key, and falls back to that key's default. */
  lemma {:induction false} FormFieldsAreDefaults()
    ensures forall i :: 0 <= i < |FORM_FIELDS| ==>
      FORM_FIELDS[i].key in DEFAULT_CONFIG && FORM_FIELDS[i].default == DEFAULT_CONFIG[FORM_FIELDS[i].key]
  {
  }

  /** No two form entries, and no form entry and the port, write the same key. */
  lemma {:induction false} FormKeysDistinct()
    ensures forall i :: 0 <= i < |FORM_FIELDS| ==> FORM_FIELDS[i].key != "mqtt_port"
    ensures forall i, j :: 0 <= i < j < |FORM_FIELDS| ==> FORM_FIELDS[i].key != FORM_FIELDS[j].key
  {
  }

  /** The form entries and the port together write every configuration key. */
  lemma {:induction false} FormFieldsCoverConfig()
    ensures forall k :: k in DEFAULT_CONFIG && k != "mqtt_port" ==> exists i :: 0 <= i < |FORM_FIELDS| && FORM_FIELDS[i].key == k
  {
    DefaultKeysAreDefaultConfig();
    forall k | k in DEFAULT_CONFIG && k != "mqtt_port"
      ensures exists i :: 0 <= i < |FORM_FIELDS| && FORM_FIELDS[i].key == k
    {
      var j :| 0 <= j < |DEFAULT_KEYS| && DEFAULT_KEYS[j] == k;
      var i := if j < 4 then j else j - 1;
      assert FORM_FIELDS[i].key == DEFAULT_KEYS[j];
    }
  }

  /** The port is the number the form sent, and the default port when it sent none or no number. */
  lemma {:induction false} NewConfigPort(params: Params)
    ensures "mqtt_port" !in params ==> NewConfig(params)["mqtt_port"] == DEFAULT_CONFIG["mqtt_port"]
    ensures "mqtt_port" in params ==>
      NewConfig(params)["mqtt_port"] == match ParseInt(params["mqtt_port"])
        case Some(n) => Int(n)
        case None => DEFAULT_CONFIG["mqtt_port"]
  {
  }

  /** What the server saves is loaded back unchanged on the next start, and not rewritten. */
  lemma {:induction false} SavedConfigLoadsUnchanged(params: Params)
    ensures Migrate(NewConfig(params)) == NewConfig(params)
    ensures !NeedsMigration(NewConfig(params))
  {
    var c := NewConfig(params);
    DefaultKeysAreDefaultConfig();
    assert !NeedsMigration(c);
    MigrateUpToDate(c);
  }

  // ---------------------------------------------------------------------------------------
  // Answering a request

  /** What the server does with a request; `Saved` is followed by a restart. */
  datatype Outcome = Saved(config: ConfigMap) | SaveFailed | ConfigPage | NotFound

  /** The outcome of one request. */
  function Respond(request: string): (o: Outcome)
    ensures o.Saved? || o == SaveFailed <==> "GET /save?" <= request
    ensures o == ConfigPage <==> "GET / HTTP" <= request
    ensures o == SaveFailed <==> "GET /save?" <= request && '?' in request && !AllPairs(Split(QueryString(request), '&'))
    ensures o.Saved? ==> o.config.Keys == DEFAULT_CONFIG.Keys && !NeedsMigration(o.config)
    ensures o.Saved? ==> ('?' in request && ParseParams(Split(QueryString(request), '&'), Unquote).Some?
      && o.config == NewConfig(ParseParams(Split(QueryString(request), '&'), Unquote).value))
  {
    var kind := Classify(request);
    if kind == SaveRequest then
      SaveRequestHasQuery(request);
      var params := ParseParams(Split(QueryString(request), '&'), Unquote);
      if params.Some? then
        SavedConfigLoadsUnchanged(params.value);
        Saved(NewConfig(params.value))
      else SaveFailed
    else if kind == FormRequest then ConfigPage
    else NotFound
  }

  /**
   * Each text key of the new configuration holds the decoded value of the last pair naming
   * its form field, and the field's default when no pair names it.
   */
  lemma {:induction false} FieldIsLastSent(pairs: seq<string>, i: nat)
    requires AllPairs(pairs) && i < |FORM_FIELDS|
    ensures var f := FORM_FIELDS[i]; var saved := NewConfig(ParseParams(pairs, Unquote).value);
      (forall j :: 0 <= j < |pairs| ==> Key(pairs[j]) != f.name) ==> saved[f.key] == f.default
    ensures var f := FORM_FIELDS[i]; var saved := NewConfig(ParseParams(pairs, Unquote).value);
      forall j :: 0 <= j < |pairs| && Key(pairs[j]) == f.name && (forall k :: j < k < |pairs| ==> Key(pairs[k]) != f.name) ==>
        saved[f.key] == Str(Unquote(RawValue(pairs[j])))
  {
    var params := ParseParams(pairs, Unquote).value;
    var f := FORM_FIELDS[i];
    var saved := NewConfig(params);
    assert saved[f.key] == if f.name in params then Str(params[f.name]) else f.default by {
      NewConfigFields(params);
      FormFieldsAreDefaults();
    }
    if forall j :: 0 <= j < |pairs| ==> Key(pairs[j]) != f.name {
      ParamsKeysNamed(pairs, Unquote);
    }
    forall j | 0 <= j < |pairs| && Key(pairs[j]) == f.name && (forall k :: j < k < |pairs| ==> Key(pairs[k]) != f.name)
      ensures saved[f.key] == Str(Unquote(RawValue(pairs[j])))
    {
      ParamsLastWins(pairs, Unquote, j);
    }
  }

  /** The same for a whole request the server saves: its query string is split into such pairs. */
  lemma {:induction false} SavedFieldIsLastSent(request: string, i: nat)
    requires Respond(request).Saved? && i < |FORM_FIELDS|
    ensures '?' in request && AllPairs(Split(QueryString(request), '&'))
    ensures var pairs := Split(QueryString(request), '&'); var f := FORM_FIELDS[i];
      (forall j :: 0 <= j < |pairs| ==> Key(pairs[j]) != f.name) ==>
        Respond(request).config[f.key] == f.default
    ensures var pairs := Split(QueryString(request), '&'); var f := FORM_FIELDS[i];
      forall j :: 0 <= j < |pairs| && Key(pairs[j]) == f.name && (forall k :: j < k < |pairs| ==> Key(pairs[k]) != f.name) ==>
        Respond(request).config[f.key] == Str(Unquote(RawValue(pairs[j])))
  {
    var o := Respond(request);
    assert '?' in request && ParseParams(Split(QueryString(request), '&'), Unquote).Some?;
    FieldIsLastSent(Split(QueryString(request), '&'), i);
  }

  /**
   * The port of the new configuration is the last `mqtt_port` pair read as an integer, and the
   * default port when no pair names it or its value is not a number.
   */
  lemma {:induction false} PortIsLastSent(pairs: seq<string>)
    requires AllPairs(pairs)
    ensures var saved := NewConfig(ParseParams(pairs, Unquote).value);
      (forall j :: 0 <= j < |pairs| ==> Key(pairs[j]) != "mqtt_port") ==> saved["mqtt_port"] == DEFAULT_CONFIG["mqtt_port"]
    ensures var saved := NewConfig(ParseParams(pairs, Unquote).value);
      forall j :: 0 <= j < |pairs| && Key(pairs[j]) == "mqtt_port" && (forall k :: j < k < |pairs| ==> Key(pairs[k]) != "mqtt_port") ==>
        saved["mqtt_port"] == match ParseInt(Unquote(RawValue(pairs[j])))
          case Some(n) => Int(n)
          case None => DEFAULT_CONFIG["mqtt_port"]
  {
    var params := ParseParams(pairs, Unquote).value;
    NewConfigPort(params);
    if forall j :: 0 <= j < |pairs| ==> Key(pairs[j]) != "mqtt_port" {
      ParamsKeysNamed(pairs, Unquote);
    }
    forall j | 0 <= j < |pairs| && Key(pairs[j]) == "mqtt_port" && (forall k :: j < k < |pairs| ==> Key(pairs[k]) != "mqtt_port")
      ensures NewConfig(params)["mqtt_port"] == match ParseInt(Unquote(RawValue(pairs[j])))
          case Some(n) => Int(n)
          case None => DEFAULT_CONFIG["mqtt_port"]
    {
      ParamsLastWins(pairs, Unquote, j);
    }
  }

  /** The same for a whole request the server saves. */
  lemma {:induction false} SavedPortIsLastSent(request: string)
    requires Respond(request).Saved?
    ensures '?' in request && AllPairs(Split(QueryString(request), '&'))
    ensures var pairs := Split(QueryString(request), '&');
      (forall j :: 0 <= j < |pairs| ==> Key(pairs[j]) != "mqtt_port") ==>
        Respond(request).config["mqtt_port"] == DEFAULT_CONFIG["mqtt_port"]
    ensures var pairs := Split(QueryString(request), '&');
      forall j :: 0 <= j < |pairs| && Key(pairs[j]) == "mqtt_port" && (forall k :: j < k < |pairs| ==> Key(pairs[k]) != "mqtt_port") ==>
        Respond(request).config["mqtt_port"] == match ParseInt(Unquote(RawValue(pairs[j])))
          case Some(n) => Int(n)
          case None => DEFAULT_CONFIG["mqtt_port"]
  {
    var o := Respond(request);
    assert '?' in request && ParseParams(Split(QueryString(request), '&'), Unquote).Some?;
    PortIsLastSent(Split(QueryString(request), '&'));
  }

  /** The request dispatch of the server loop, for one received request. */
  method HandleRequest(request: string) returns (outcome: Outcome)
    ensures outcome == Respond(request)
  {
    var isSaveRequest := Find(request, "GET /save?") == 0;
    var isRootRequest := Find(request, "GET / HTTP") == 0;
    if isSaveRequest {
      SaveRequestHasQuery(request);
      var query := Split(Split(request, '?')[1], ' ')[0];
      var params := ParseQuery(query);
      if params.Some? {
        outcome := Saved(NewConfig(params.value));
      } else {
        outcome := SaveFailed;
      }
    } else if isRootRequest {
      outcome := ConfigPage;
    } else {
      outcome := NotFound;
    }
  }
}
