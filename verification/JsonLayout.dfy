/** The layout of printed JSON (dump_impl of nvidia/src/json.cpp), as a property of the text alone:
    where its newlines and spaces are, and how far each line is indented. */
module JsonLayout {
  import opened Decimal
  import opened Json
  import opened JsonReader

  // ----- scanning a text

  /** Inside or outside a string, with the number of brackets opened and not yet closed. */
  datatype Scan = Outside(open: nat) | Inside(open: nat, escaped: bool)

  predicate IsOpen(c: char) { c == '[' || c == '{' }

  predicate IsClose(c: char) { c == ']' || c == '}' }

  predicate Matching(o: char, c: char) { (o == '[' && c == ']') || (o == '{' && c == '}') }

  function Advance(s: Scan, c: char): Scan {
    match s
    case Outside(n) =>
      if c == '"' then Inside(n, false)
      else if IsOpen(c) then Outside(n + 1)
      else if IsClose(c) && n > 0 then Outside(n - 1)
      else Outside(n)
    case Inside(n, escaped) =>
      if escaped then Inside(n, false)
      else if c == '\\' then Inside(n, true)
      else if c == '"' then Outside(n)
      else Inside(n, false)
  }

  /** The state in front of character i. */
  function ScanAt(t: string, i: nat): Scan
    requires i <= |t|
  {
    if i == 0 then Outside(0) else Advance(ScanAt(t, i - 1), t[i - 1])
  }

  // ----- the layout

  predicate Spaces(t: string, a: nat, b: nat)
    requires b <= |t|
  {
    forall j :: a <= j < b ==> t[j] == ' '
  }

  /** After position i come exactly w spaces, and then something. */
  predicate Indented(t: string, i: nat, w: nat) {
    i + 1 + w < |t| && Spaces(t, i + 1, i + 1 + w) && t[i + 1 + w] != ' '
  }

  /** Before position i come w spaces, and a newline before them. */
  predicate StartsLine(t: string, i: nat, w: nat) {
    w < i <= |t| && t[i - 1 - w] == '\n' && Spaces(t, i - w, i)
  }

  /** A newline comes after an opening bracket or a comma, and then the next line is indented for
      every open bracket; or before a closing bracket, which is indented for one bracket less. */
  predicate NewlineFits(t: string, i: nat, indent: nat, open: nat)
    requires 0 < i < |t|
  {
    if IsOpen(t[i - 1]) || t[i - 1] == ',' then
      Indented(t, i, indent * open) && !IsClose(t[i + 1 + indent * open])
    else
      open > 0 && Indented(t, i, indent * (open - 1)) && IsClose(t[i + 1 + indent * (open - 1)])
  }

  /** What must surround character i when it is outside strings with `open` brackets open. */
  predicate Fits(t: string, i: nat, indent: nat, open: nat)
    requires i < |t|
  {
    var c := t[i];
    && (c == '\n' ==> 0 < i && NewlineFits(t, i, indent, open))
    && (c == ' ' ==> 0 < i && (t[i - 1] == '\n' || t[i - 1] == ' ' || t[i - 1] == ':'))
    && (c == ':' ==> i + 2 < |t| && t[i + 1] == ' ' && !IsSpace(t[i + 2]))
    && (c == ',' ==> i + 1 < |t| && t[i + 1] == '\n')
    && (IsOpen(c) ==> i + 1 < |t| && (t[i + 1] == '\n' || Matching(c, t[i + 1])))
    && (IsClose(c) ==> 0 < i && 0 < open && (Matching(t[i - 1], c) || StartsLine(t, i, indent * (open - 1))))
    && c != '\t' && c != '\r'
  }

  /** Every character outside strings fits, and every bracket and string is closed at the end. */
  ghost predicate WellLaid(t: string, indent: nat) {
    && (forall i: nat :: i < |t| && ScanAt(t, i).Outside? ==> Fits(t, i, indent, ScanAt(t, i).open))
    && ScanAt(t, |t|) == Outside(0)
  }

  /** The same for a stretch of the text. */
  predicate Laid(t: string, a: nat, b: nat, indent: nat)
    decreases b
  {
    && a <= b <= |t|
    && (a < b ==>
          && Laid(t, a, b - 1, indent)
          && (ScanAt(t, b - 1).Outside? ==> Fits(t, b - 1, indent, ScanAt(t, b - 1).open)))
  }

  lemma {:induction false} LaidAt(t: string, a: nat, b: nat, indent: nat, i: nat)
    requires Laid(t, a, b, indent) && a <= i < b && ScanAt(t, i).Outside?
    ensures Fits(t, i, indent, ScanAt(t, i).open)
    decreases b
  {
    if i == b - 1 {
    } else {
      LaidAt(t, a, b - 1, indent, i);
    }
  }

  /** One character whose surroundings are in order. */
  lemma LayOne(t: string, a: nat, indent: nat, n: nat)
    requires a < |t| && ScanAt(t, a) == Outside(n) && Fits(t, a, indent, n)
    ensures Laid(t, a, a + 1, indent) && ScanAt(t, a + 1) == Advance(Outside(n), t[a])
  {
    assert Laid(t, a, a, indent);
  }

  lemma {:induction false} Join(t: string, a: nat, b: nat, c: nat, indent: nat)
    requires Laid(t, a, b, indent) && Laid(t, b, c, indent)
    ensures Laid(t, a, c, indent)
    decreases c
  {
    if b == c {
    } else {
      Join(t, a, b, c - 1, indent);
    }
  }

  ghost predicate AllInside(t: string, a: nat, b: nat) {
    a <= b <= |t| && forall i: nat :: a <= i < b ==> ScanAt(t, i).Inside?
  }

  lemma {:induction false} InsideLaid(t: string, a: nat, b: nat, indent: nat)
    requires AllInside(t, a, b)
    ensures Laid(t, a, b, indent)
    decreases b
  {
    if a == b {
    } else {
      InsideLaid(t, a, b - 1, indent);
    }
  }

  // ----- pieces of a text

  /** The piece u stands in t at position a. */
  predicate At(t: string, a: nat, u: string) {
    a + |u| <= |t| && forall j :: 0 <= j < |u| ==> t[a + j] == u[j]
  }

  lemma AtChar(t: string, a: nat, u: string, j: nat)
    requires At(t, a, u) && j < |u|
    ensures a + j < |t| && t[a + j] == u[j]
  {
  }

  lemma AtSplit(t: string, a: nat, x: string, y: string)
    requires At(t, a, x + y)
    ensures At(t, a, x) && At(t, a + |x|, y)
  {
    forall j | 0 <= j < |x| ensures t[a + j] == x[j] { assert (x + y)[j] == x[j]; }
    forall j | 0 <= j < |y| ensures t[a + |x| + j] == y[j] { assert (x + y)[|x| + j] == y[j]; }
  }

  lemma AtRest(t: string, a: nat, u: string)
    requires At(t, a, u) && u != []
    ensures t[a] == u[0] && At(t, a + 1, u[1..])
  {
    assert u == [u[0]] + u[1..];
    AtSplit(t, a, [u[0]], u[1..]);
    AtChar(t, a, u, 0);
  }

  /** Characters that need nothing around them and keep the state. */
  predicate Plain(c: char) {
    c != '"' && !IsOpen(c) && !IsClose(c) && c != ':' && c != ',' && !IsSpace(c)
  }

  lemma {:induction false} LayPlain(t: string, a: nat, u: string, indent: nat, n: nat)
    requires At(t, a, u) && ScanAt(t, a) == Outside(n) && forall j :: 0 <= j < |u| ==> Plain(u[j])
    ensures Laid(t, a, a + |u|, indent) && ScanAt(t, a + |u|) == Outside(n)
    decreases |u|
  {
    if u == [] {
    } else {
      AtRest(t, a, u);
      assert Plain(u[0]);
      LayOne(t, a, indent, n);
      LayPlain(t, a + 1, u[1..], indent, n);
      Join(t, a, a + 1, a + |u|, indent);
    }
  }

  lemma LayPad(t: string, a: nat, w: nat, indent: nat, n: nat)
    requires At(t, a, Pad(w)) && ScanAt(t, a) == Outside(n) && 0 < a && t[a - 1] == '\n'
    ensures Laid(t, a, a + w, indent) && ScanAt(t, a + w) == Outside(n) && Spaces(t, a, a + w)
  {
    forall j | a <= j < a + w ensures t[j] == ' ' { AtChar(t, a, Pad(w), j - a); }
    LaySpaces(t, a, w, indent, n);
  }

  lemma {:induction false} LaySpaces(t: string, a: nat, w: nat, indent: nat, n: nat)
    requires a + w <= |t| && Spaces(t, a, a + w) && ScanAt(t, a) == Outside(n) && 0 < a && t[a - 1] == '\n'
    ensures Laid(t, a, a + w, indent) && ScanAt(t, a + w) == Outside(n)
  {
    if w == 0 {
    } else {
      LaySpaces(t, a, w - 1, indent, n);
      LayOne(t, a + w - 1, indent, n);
    }
  }

  // ----- strings

  lemma {:induction false} ScanQuiet(t: string, a: nat, u: string, n: nat)
    requires At(t, a, u) && ScanAt(t, a) == Inside(n, false) && forall j :: 0 <= j < |u| ==> u[j] != '"' && u[j] != '\\'
    ensures AllInside(t, a, a + |u|) && ScanAt(t, a + |u|) == Inside(n, false)
    decreases |u|
  {
    if u == [] {
    } else {
      AtRest(t, a, u);
      ScanQuiet(t, a + 1, u[1..], n);
    }
  }

  lemma TailQuiet(c: char)
    requires NeedsEscape(c)
    ensures forall j :: 0 < j < |EscapeTail(c)| ==> EscapeTail(c)[j] != '"' && EscapeTail(c)[j] != '\\'
  {
    if |EscapeTail(c)| > 1 {
      var code := c as int;
      assert EscapeTail(c) == "u" + Hex4(code);
    }
  }

  lemma ScanEscape(t: string, a: nat, c: char, n: nat)
    requires At(t, a, EscapeChar(c)) && ScanAt(t, a) == Inside(n, false)
    ensures AllInside(t, a, a + |EscapeChar(c)|) && ScanAt(t, a + |EscapeChar(c)|) == Inside(n, false)
  {
    AtRest(t, a, EscapeChar(c));
    if NeedsEscape(c) {
      var e := EscapeTail(c);
      assert EscapeChar(c)[1..] == e;
      AtRest(t, a + 1, e);
      TailQuiet(c);
      ScanQuiet(t, a + 2, e[1..], n);
    }
  }

  lemma ScanFirst(t: string, a: nat, c: char, rest: string, n: nat) returns (b: nat)
    requires At(t, a, EscapeChar(c) + rest) && ScanAt(t, a) == Inside(n, false)
    ensures b + |rest| == a + |EscapeChar(c) + rest| && At(t, b, rest)
    ensures AllInside(t, a, b) && ScanAt(t, b) == Inside(n, false)
  {
    AtSplit(t, a, EscapeChar(c), rest);
    ScanEscape(t, a, c, n);
    b := a + |EscapeChar(c)|;
  }

  lemma InsideJoin(t: string, a: nat, b: nat, c: nat)
    requires AllInside(t, a, b) && AllInside(t, b, c)
    ensures AllInside(t, a, c)
  {
  }

  lemma {:induction false} ScanEscaped(t: string, a: nat, s: string, n: nat)
    requires At(t, a, Escaped(s)) && ScanAt(t, a) == Inside(n, false)
    ensures AllInside(t, a, a + |Escaped(s)|) && ScanAt(t, a + |Escaped(s)|) == Inside(n, false)
    decreases |s|
  {
    if s == [] {
    } else {
      var b := ScanFirst(t, a, s[0], Escaped(s[1..]), n);
      ScanEscaped(t, b, s[1..], n);
      InsideJoin(t, a, b, b + |Escaped(s[1..])|);
    }
  }

  lemma QuotedParts(t: string, a: nat, s: string) returns (b: nat)
    requires At(t, a, Quoted(s))
    ensures b + 1 == a + |Quoted(s)| && b < |t| && t[a] == '"' == t[b]
    ensures b == a + 1 + |Escaped(s)| && At(t, a + 1, Escaped(s))
  {
    b := a + 1 + |Escaped(s)|;
    AtSplit(t, a, "\"", Escaped(s) + "\"");
    AtSplit(t, a + 1, Escaped(s), "\"");
    AtChar(t, a, "\"", 0);
    AtChar(t, b, "\"", 0);
  }

  lemma LayQuoted(t: string, a: nat, s: string, indent: nat, n: nat)
    requires At(t, a, Quoted(s)) && ScanAt(t, a) == Outside(n)
    ensures Laid(t, a, a + |Quoted(s)|, indent) && ScanAt(t, a + |Quoted(s)|) == Outside(n)
  {
    var b := QuotedParts(t, a, s);
    LayOne(t, a, indent, n);
    ScanEscaped(t, a + 1, s, n);
    InsideLaid(t, a + 1, b, indent);
    InsideLaid(t, b, b + 1, indent);
    Join(t, a, a + 1, b, indent);
    Join(t, a, b, b + 1, indent);
  }

  // ----- scalars

  lemma {:induction false} DigitsPlain(n: nat)
    ensures forall j :: 0 <= j < |Digits(n)| ==> Plain(Digits(n)[j])
  {
    ValueOfDigits(n);
  }

  lemma LayScalar(t: string, a: nat, v: Json, indent: nat, depth: nat)
    requires !v.Arr? && !v.Obj?
    requires At(t, a, Text(v, indent, depth)) && ScanAt(t, a) == Outside(depth)
    ensures Laid(t, a, a + |Text(v, indent, depth)|, indent)
    ensures ScanAt(t, a + |Text(v, indent, depth)|) == Outside(depth)
  {
    match v
    case Str(s) => LayQuoted(t, a, s, indent, depth);
    case Signed(i) =>
      DigitsPlain(if i < 0 then -i else i);
      LayPlain(t, a, SignedText(i), indent, depth);
    case Unsigned(u) =>
      DigitsPlain(u);
      LayPlain(t, a, Digits(u), indent, depth);
    case _ => LayPlain(t, a, Text(v, indent, depth), indent, depth);
  }

  /** A value's text does not end with an opening bracket or a comma. */
  lemma TextEnd(v: Json, indent: nat, depth: nat)
    ensures var c := Text(v, indent, depth)[|Text(v, indent, depth)| - 1]; !IsOpen(c) && c != ','
  {
    match v
    case Signed(i) => DigitsPlain(if i < 0 then -i else i);
    case Unsigned(u) => DigitsPlain(u);
    case _ =>
  }

  // ----- from line to line

  /** A line that starts with w spaces and a piece that starts with neither space nor a closing bracket. */
  lemma LineStart(t: string, a: nat, w: nat, u: string)
    requires 0 < a && At(t, a, Pad(w)) && At(t, a + w, u)
    requires u != [] && !IsSpace(u[0]) && !IsClose(u[0])
    ensures Indented(t, a - 1, w) && !IsClose(t[a + w])
  {
    forall j | a <= j < a + w ensures t[j] == ' ' { AtChar(t, a, Pad(w), j - a); }
    AtChar(t, a + w, u, 0);
  }

  /** Position a starts a line inside n brackets. */
  predicate AtLine(t: string, a: nat, n: nat) {
    0 < a <= |t| && t[a - 1] == '\n' && ScanAt(t, a) == Outside(n)
  }

  /** Position c starts a line of w spaces and a closing bracket. */
  predicate BeforeClosing(t: string, c: nat, w: nat) {
    0 < c && Indented(t, c - 1, w) && IsClose(t[c + w])
  }

  /** From a to b there are lines in order, inside n brackets, the first of them indented by w. */
  ghost predicate BlockLaid(t: string, a: nat, b: nat, w: nat, indent: nat, n: nat) {
    && Laid(t, a, b, indent) && ScanAt(t, b) == Outside(n)
    && 0 < a && t[b - 1] == '\n' && Indented(t, a - 1, w) && !IsClose(t[a + w])
  }

  /** The end of the last line of a block. */
  lemma LastBreak(t: string, a: nat, e: nat, w: nat, indent: nat, depth: nat)
    requires w == indent * depth && Laid(t, a, e, indent) && ScanAt(t, e) == Outside(depth + 1)
    requires 0 < e < |t| && t[e] == '\n' && !IsOpen(t[e - 1]) && t[e - 1] != ','
    requires Indented(t, e, w) && IsClose(t[e + 1 + w])
    ensures Laid(t, a, e + 1, indent) && ScanAt(t, e + 1) == Outside(depth + 1)
  {
    LayOne(t, e, indent, depth + 1);
    Join(t, a, e, e + 1, indent);
  }

  lemma ScanBreak(t: string, e: nat, n: nat)
    requires e + 1 < |t| && t[e] == ',' && t[e + 1] == '\n' && ScanAt(t, e) == Outside(n)
    ensures ScanAt(t, e + 1) == Outside(n) && ScanAt(t, e + 2) == Outside(n)
  {
    assert ScanAt(t, e + 1) == Advance(ScanAt(t, e), t[e]);
  }

  /** The end of a line with another one behind it. */
  lemma MoreBreak(t: string, a: nat, e: nat, c: nat, w: nat, indent: nat, n: nat)
    requires w == indent * n && Laid(t, a, e, indent) && ScanAt(t, e) == Outside(n)
    requires e + 1 < |t| && t[e] == ',' && t[e + 1] == '\n'
    requires Indented(t, e + 1, w) && !IsClose(t[e + 2 + w]) && Laid(t, e + 2, c, indent)
    ensures Laid(t, a, c, indent)
  {
    ScanBreak(t, e, n);
    LayOne(t, e, indent, n);
    LayOne(t, e + 1, indent, n);
    Join(t, a, e, e + 1, indent);
    Join(t, a, e + 1, e + 2, indent);
    Join(t, a, e + 2, c, indent);
  }

  // ----- values

  /** What a value leaves where it stands. */
  ghost predicate ValueLaid(t: string, a: nat, u: string, indent: nat, depth: nat) {
    Laid(t, a, a + |u|, indent) && ScanAt(t, a + |u|) == Outside(depth)
  }

  lemma LayOpening(t: string, a: nat, open: string, indent: nat, depth: nat)
    requires |open| == 2 && IsOpen(open[0]) && open[1] == '\n' && At(t, a, open) && ScanAt(t, a) == Outside(depth)
    requires Indented(t, a + 1, indent * (depth + 1)) && !IsClose(t[a + 2 + indent * (depth + 1)])
    ensures Laid(t, a, a + 2, indent)
  {
    AtChar(t, a, open, 0);
    AtChar(t, a, open, 1);
    LayOne(t, a, indent, depth);
    LayOne(t, a + 1, indent, depth + 1);
    Join(t, a, a + 1, a + 2, indent);
  }

  lemma LayClosing(t: string, b: nat, w: nat, close: string, indent: nat, depth: nat)
    requires |close| == 1 && IsClose(close[0]) && w == indent * depth && At(t, b, Pad(w) + close)
    requires 0 < b && t[b - 1] == '\n' && ScanAt(t, b) == Outside(depth + 1)
    ensures Laid(t, b, b + w + 1, indent) && ScanAt(t, b + w + 1) == Outside(depth)
  {
    AtSplit(t, b, Pad(w), close);
    AtChar(t, b + w, close, 0);
    LayPad(t, b, w, indent, depth + 1);
    assert StartsLine(t, b + w, w);
    LayOne(t, b + w, indent, depth + 1);
    Join(t, b, b + w, b + w + 1, indent);
  }

  /** Brackets around the lines of a block. */
  lemma LayBrackets(t: string, a: nat, w: nat, open: string, lines: string, close: string, indent: nat, depth: nat)
    requires |open| == 2 && IsOpen(open[0]) && open[1] == '\n' && |close| == 1 && IsClose(close[0])
    requires w == indent * depth && At(t, a, open + (lines + (Pad(w) + close))) && ScanAt(t, a) == Outside(depth)
    requires BlockLaid(t, a + 2, a + 2 + |lines|, indent * (depth + 1), indent, depth + 1)
    ensures ValueLaid(t, a, open + (lines + (Pad(w) + close)), indent, depth)
  {
    var b := a + 2 + |lines|;
    AtSplit(t, a, open, lines + (Pad(w) + close));
    AtSplit(t, a + 2, lines, Pad(w) + close);
    LayOpening(t, a, open, indent, depth);
    LayClosing(t, b, w, close, indent, depth);
    Join(t, a, a + 2, b, indent);
    Join(t, a, b, b + w + 1, indent);
  }

  /** Where the lines of a bracketed value stand. */
  lemma BlockInside(t: string, a: nat, open: string, lines: string, w: nat, close: string, indent: nat, depth: nat)
    requires |open| == 2 && IsOpen(open[0]) && open[1] == '\n' && |close| == 1 && IsClose(close[0])
    requires lines != [] && w == indent * depth
    requires At(t, a, open + (lines + (Pad(w) + close))) && ScanAt(t, a) == Outside(depth)
    ensures At(t, a + 2, lines) && AtLine(t, a + 2, depth + 1) && BeforeClosing(t, a + 2 + |lines|, w)
  {
    var b := a + 2 + |lines|;
    AtSplit(t, a, open, lines + (Pad(w) + close));
    AtSplit(t, a + 2, lines, Pad(w) + close);
    AtSplit(t, b, Pad(w), close);
    AtChar(t, a, open, 0);
    AtChar(t, a, open, 1);
    ClosingLine(t, b, w, close);
  }

  lemma ClosingLine(t: string, b: nat, w: nat, close: string)
    requires 0 < b && At(t, b, Pad(w)) && At(t, b + w, close) && |close| == 1 && IsClose(close[0])
    ensures Indented(t, b - 1, w) && IsClose(t[b + w])
  {
    AtChar(t, b + w, close, 0);
    forall j | b <= j < b + w ensures t[j] == ' ' { AtChar(t, b, Pad(w), j - b); }
  }

  lemma LayEmpty(t: string, a: nat, u: string, indent: nat, depth: nat)
    requires u == "[]" || u == "{}"
    requires At(t, a, u) && ScanAt(t, a) == Outside(depth)
    ensures ValueLaid(t, a, u, indent, depth)
  {
    AtChar(t, a, u, 0);
    AtChar(t, a, u, 1);
    LayOne(t, a, indent, depth);
    LayOne(t, a + 1, indent, depth + 1);
    Join(t, a, a + 1, a + 2, indent);
  }

  /** What a value's text may begin and end with. */
  predicate Ends(x: string) {
    x != [] && !IsSpace(x[0]) && !IsClose(x[0]) && !IsOpen(x[|x| - 1]) && x[|x| - 1] != ','
  }

  lemma TextEnds(v: Json, indent: nat, depth: nat)
    ensures Ends(Text(v, indent, depth))
  {
    TextStart(v, indent, depth);
    TextEnd(v, indent, depth);
  }

  /** Wherever the text x stands at that depth, it is laid out. */
  ghost predicate Layable(x: string, indent: nat, depth: nat) {
    && Ends(x)
    && forall t: string, a: nat :: At(t, a, x) && ScanAt(t, a) == Outside(depth) ==> ValueLaid(t, a, x, indent, depth)
  }

  // ----- lines

  /** The spaces and the content of a line. */
  lemma LayContent(t: string, a: nat, w: nat, x: string, b: nat, indent: nat, n: nat)
    requires 0 < a && At(t, a, Pad(w)) && At(t, a + w, x) && Layable(x, indent, n) && b == a + w + |x|
    requires t[a - 1] == '\n' && ScanAt(t, a) == Outside(n)
    ensures 0 < b <= |t| && Laid(t, a, b, indent) && ScanAt(t, b) == Outside(n)
    ensures !IsOpen(t[b - 1]) && t[b - 1] != ',' && Indented(t, a - 1, w) && !IsClose(t[a + w])
  {
    LayPad(t, a, w, indent, n);
    LineStart(t, a, w, x);
    AtChar(t, a + w, x, |x| - 1);
    assert ValueLaid(t, a + w, x, indent, n);
    Join(t, a, a + w, b, indent);
  }

  /** The lines of a block, w spaces in front of each. */
  function LinesText(xs: seq<string>, w: nat): (u: string)
    requires xs != []
    ensures u != []
  {
    Pad(w) + (xs[0] + (if |xs| == 1 then "\n" else ",\n" + LinesText(xs[1..], w)))
  }

  ghost predicate AllLayable(xs: seq<string>, indent: nat, depth: nat) {
    xs != [] ==> Layable(xs[0], indent, depth) && AllLayable(xs[1..], indent, depth)
  }

  lemma {:induction false} EachLayable(xs: seq<string>, indent: nat, depth: nat)
    requires forall i :: 0 <= i < |xs| ==> Layable(xs[i], indent, depth)
    ensures AllLayable(xs, indent, depth)
  {
    if xs == [] {
    } else {
      EachLayable(xs[1..], indent, depth);
    }
  }

  /** Where the first of several lines ends and the next one begins. */
  lemma FirstOfLines(t: string, a: nat, xs: seq<string>, w: nat, b: nat)
    requires |xs| > 1 && At(t, a, LinesText(xs, w)) && b == a + w + |xs[0]|
    ensures At(t, a, Pad(w)) && At(t, a + w, xs[0])
    ensures b + 1 < |t| && t[b] == ',' && t[b + 1] == '\n' && At(t, b + 2, LinesText(xs[1..], w))
    ensures b + 2 + |LinesText(xs[1..], w)| == a + |LinesText(xs, w)|
  {
    var others := LinesText(xs[1..], w);
    AtSplit(t, a, Pad(w), xs[0] + (",\n" + others));
    AtSplit(t, a + w, xs[0], ",\n" + others);
    AtSplit(t, b, ",\n", others);
    AtChar(t, b, ",\n", 0);
    AtChar(t, b, ",\n", 1);
  }

  lemma OnlyLine(t: string, a: nat, xs: seq<string>, w: nat, b: nat)
    requires |xs| == 1 && At(t, a, LinesText(xs, w)) && b == a + w + |xs[0]|
    ensures At(t, a, Pad(w)) && At(t, a + w, xs[0])
    ensures b < |t| && t[b] == '\n' && b + 1 == a + |LinesText(xs, w)|
  {
    AtSplit(t, a, Pad(w), xs[0] + "\n");
    AtSplit(t, a + w, xs[0], "\n");
    AtChar(t, b, "\n", 0);
  }

  /** The lines xs stand in t from a to c. */
  predicate LinesStand(t: string, a: nat, xs: seq<string>, w: nat, c: nat)
    requires xs != []
    decreases |xs|
  {
    var b := a + w + |xs[0]|;
    && b < c <= |t| && At(t, a, Pad(w)) && At(t, a + w, xs[0])
    && if |xs| == 1 then t[b] == '\n' && c == b + 1
       else b + 1 < |t| && t[b] == ',' && t[b + 1] == '\n' && LinesStand(t, b + 2, xs[1..], w, c)
  }

  lemma {:induction false} LinesAt(t: string, a: nat, xs: seq<string>, w: nat, c: nat)
    requires xs != [] && At(t, a, LinesText(xs, w)) && c == a + |LinesText(xs, w)|
    ensures LinesStand(t, a, xs, w, c)
    decreases |xs|
  {
    var b := a + w + |xs[0]|;
    if |xs| == 1 {
      OnlyLine(t, a, xs, w, b);
    } else {
      FirstOfLines(t, a, xs, w, b);
      LinesAt(t, b + 2, xs[1..], w, c);
    }
  }

  lemma LastLine(t: string, a: nat, w: nat, x: string, b: nat, w0: nat, indent: nat, depth: nat)
    requires b == a + w + |x| && At(t, a, Pad(w)) && At(t, a + w, x) && Layable(x, indent, depth + 1)
    requires AtLine(t, a, depth + 1) && b < |t| && t[b] == '\n' && w0 == indent * depth && BeforeClosing(t, b + 1, w0)
    ensures BlockLaid(t, a, b + 1, w, indent, depth + 1)
  {
    LayContent(t, a, w, x, b, indent, depth + 1);
    LastBreak(t, a, b, w0, indent, depth);
  }

  lemma NextLine(t: string, a: nat, w: nat, x: string, b: nat, indent: nat, n: nat)
    requires b == a + w + |x| && At(t, a, Pad(w)) && At(t, a + w, x) && Layable(x, indent, n) && AtLine(t, a, n)
    requires b + 1 < |t| && t[b] == ',' && t[b + 1] == '\n'
    ensures AtLine(t, b + 2, n)
  {
    LayContent(t, a, w, x, b, indent, n);
    ScanBreak(t, b, n);
  }

  lemma MoreLines(t: string, a: nat, w: nat, x: string, b: nat, c: nat, indent: nat, n: nat)
    requires b == a + w + |x| && At(t, a, Pad(w)) && At(t, a + w, x) && Layable(x, indent, n) && AtLine(t, a, n)
    requires b + 1 < |t| && t[b] == ',' && t[b + 1] == '\n'
    requires w == indent * n && BlockLaid(t, b + 2, c, w, indent, n)
    ensures BlockLaid(t, a, c, w, indent, n)
  {
    LayContent(t, a, w, x, b, indent, n);
    MoreBreak(t, a, b, c, w, indent, n);
  }

  lemma {:induction false} LayLines(t: string, a: nat, xs: seq<string>, c: nat, w: nat, w0: nat,
                                    indent: nat, depth: nat)
    requires w == indent * (depth + 1) && w0 == indent * depth
    requires xs != [] && LinesStand(t, a, xs, w, c) && AllLayable(xs, indent, depth + 1)
    requires AtLine(t, a, depth + 1) && BeforeClosing(t, c, w0)
    ensures BlockLaid(t, a, c, w, indent, depth + 1)
    decreases |xs|
  {
    var b := a + w + |xs[0]|;
    if |xs| == 1 {
      LastLine(t, a, w, xs[0], b, w0, indent, depth);
    } else {
      NextLine(t, a, w, xs[0], b, indent, depth + 1);
      LayLines(t, b + 2, xs[1..], c, w, w0, indent, depth);
      MoreLines(t, a, w, xs[0], b, c, indent, depth + 1);
    }
  }

  lemma LayBlock(t: string, a: nat, xs: seq<string>, w: nat, c: nat, w0: nat, indent: nat, depth: nat)
    requires w == indent * (depth + 1) && w0 == indent * depth && xs != [] && AllLayable(xs, indent, depth + 1)
    requires At(t, a, LinesText(xs, w)) && c == a + |LinesText(xs, w)|
    requires AtLine(t, a, depth + 1) && BeforeClosing(t, c, w0)
    ensures BlockLaid(t, a, c, w, indent, depth + 1)
  {
    LinesAt(t, a, xs, w, c);
    LayLines(t, a, xs, c, w, w0, indent, depth);
  }

  lemma LayBracketed(t: string, a: nat, xs: seq<string>, w: nat, lines: string, w0: nat, open: string, close: string,
                     indent: nat, depth: nat)
    requires xs != [] && AllLayable(xs, indent, depth + 1)
    requires |open| == 2 && IsOpen(open[0]) && open[1] == '\n' && |close| == 1 && IsClose(close[0])
    requires w == indent * (depth + 1) && w0 == indent * depth && lines == LinesText(xs, w)
    requires At(t, a, open + (lines + (Pad(w0) + close))) && ScanAt(t, a) == Outside(depth)
    ensures ValueLaid(t, a, open + (lines + (Pad(w0) + close)), indent, depth)
  {
    BlockInside(t, a, open, lines, w0, close, indent, depth);
    LayBlock(t, a + 2, xs, w, a + 2 + |lines|, w0, indent, depth);
    LayBrackets(t, a, w0, open, lines, close, indent, depth);
  }

  lemma BracketEnds(open: string, middle: string, pad: string, close: string)
    requires |open| == 2 && IsOpen(open[0]) && |close| == 1 && IsClose(close[0])
    ensures Ends(open + (middle + (pad + close)))
  {
    var u := open + (middle + (pad + close));
    assert u[0] == open[0] && u[|u| - 1] == close[0];
  }

  lemma LayableBrackets(xs: seq<string>, w: nat, lines: string, w0: nat, open: string, close: string,
                        indent: nat, depth: nat)
    requires xs != [] && AllLayable(xs, indent, depth + 1)
    requires |open| == 2 && IsOpen(open[0]) && open[1] == '\n' && |close| == 1 && IsClose(close[0])
    requires w == indent * (depth + 1) && lines == LinesText(xs, w) && w0 == indent * depth
    ensures Layable(open + (lines + (Pad(w0) + close)), indent, depth)
  {
    var u := open + (lines + (Pad(w0) + close));
    BracketEnds(open, lines, Pad(w0), close);
    forall t: string, a: nat | At(t, a, u) && ScanAt(t, a) == Outside(depth) ensures ValueLaid(t, a, u, indent, depth) {
      LayBracketed(t, a, xs, w, lines, w0, open, close, indent, depth);
    }
  }

  // ----- items and members

  function ItemTexts(items: seq<Json>, indent: nat, depth: nat): (xs: seq<string>)
    ensures |xs| == |items| && forall i :: 0 <= i < |xs| ==> xs[i] == Text(items[i], indent, depth)
  {
    seq(|items|, i requires 0 <= i < |items| => Text(items[i], indent, depth))
  }

  lemma {:induction false} ItemLines(items: seq<Json>, indent: nat, depth: nat)
    requires items != []
    ensures ItemsText(items, indent, depth) == LinesText(ItemTexts(items, indent, depth + 1), indent * (depth + 1))
  {
    if |items| == 1 {
    } else {
      ItemLines(items[1..], indent, depth);
      assert ItemTexts(items, indent, depth + 1)[1..] == ItemTexts(items[1..], indent, depth + 1);
    }
  }

  /** Key, colon and value. */
  function MemberText(m: Member, indent: nat, depth: nat): string {
    Quoted(m.key) + (": " + Text(m.value, indent, depth))
  }

  function MemberTexts(members: seq<Member>, indent: nat, depth: nat): (xs: seq<string>)
    ensures |xs| == |members| && forall i :: 0 <= i < |xs| ==> xs[i] == MemberText(members[i], indent, depth)
  {
    seq(|members|, i requires 0 <= i < |members| => MemberText(members[i], indent, depth))
  }

  lemma {:induction false} MemberLines(members: seq<Member>, indent: nat, depth: nat)
    requires members != []
    ensures MembersText(members, indent, depth) ==
      LinesText(MemberTexts(members, indent, depth + 1), indent * (depth + 1))
  {
    var q, x := Quoted(members[0].key), Text(members[0].value, indent, depth + 1);
    if |members| == 1 {
      Regroup3(q, ": ", x, "\n");
    } else {
      MemberLines(members[1..], indent, depth);
      assert MemberTexts(members, indent, depth + 1)[1..] == MemberTexts(members[1..], indent, depth + 1);
      Regroup3(q, ": ", x, ",\n" + MembersText(members[1..], indent, depth));
    }
  }

  lemma LayColon(t: string, a: nat, u: string, indent: nat, n: nat)
    requires At(t, a, ": ") && At(t, a + 2, u) && u != [] && !IsSpace(u[0]) && ScanAt(t, a) == Outside(n)
    ensures Laid(t, a, a + 2, indent) && ScanAt(t, a + 2) == Outside(n)
  {
    AtChar(t, a, ": ", 0);
    AtChar(t, a, ": ", 1);
    AtChar(t, a + 2, u, 0);
    LayOne(t, a, indent, n);
    LayOne(t, a + 1, indent, n);
    Join(t, a, a + 1, a + 2, indent);
  }

  lemma LayMember(t: string, a: nat, key: string, x: string, indent: nat, n: nat)
    requires At(t, a, Quoted(key) + (": " + x)) && ScanAt(t, a) == Outside(n) && Layable(x, indent, n)
    ensures ValueLaid(t, a, Quoted(key) + (": " + x), indent, n)
  {
    var b := a + |Quoted(key)|;
    AtSplit(t, a, Quoted(key), ": " + x);
    AtSplit(t, b, ": ", x);
    LayQuoted(t, a, key, indent, n);
    LayColon(t, b, x, indent, n);
    assert ValueLaid(t, b + 2, x, indent, n);
    Join(t, a, b, b + 2, indent);
    Join(t, a, b + 2, b + 2 + |x|, indent);
  }

  lemma LayableMember(key: string, x: string, indent: nat, depth: nat)
    requires Layable(x, indent, depth)
    ensures Layable(Quoted(key) + (": " + x), indent, depth)
  {
    var u := Quoted(key) + (": " + x);
    assert u[0] == '"' && u[|u| - 1] == x[|x| - 1];
    forall t: string, a: nat | At(t, a, u) && ScanAt(t, a) == Outside(depth) ensures ValueLaid(t, a, u, indent, depth) {
      LayMember(t, a, key, x, indent, depth);
    }
  }

  // ----- values

  lemma LayableScalar(v: Json, indent: nat, depth: nat)
    requires !v.Arr? && !v.Obj?
    ensures Layable(Text(v, indent, depth), indent, depth)
  {
    var u := Text(v, indent, depth);
    TextEnds(v, indent, depth);
    forall t: string, a: nat | At(t, a, u) && ScanAt(t, a) == Outside(depth) ensures ValueLaid(t, a, u, indent, depth) {
      LayScalar(t, a, v, indent, depth);
    }
  }

  lemma LayableEmpty(u: string, indent: nat, depth: nat)
    requires u == "[]" || u == "{}"
    ensures Layable(u, indent, depth)
  {
    forall t: string, a: nat | At(t, a, u) && ScanAt(t, a) == Outside(depth) ensures ValueLaid(t, a, u, indent, depth) {
      LayEmpty(t, a, u, indent, depth);
    }
  }

  lemma LayableArray(items: seq<Json>, indent: nat, depth: nat)
    requires items != []
    requires forall i :: 0 <= i < |items| ==> Layable(Text(items[i], indent, depth + 1), indent, depth + 1)
    ensures Layable(Text(Arr(items), indent, depth), indent, depth)
  {
    var xs := ItemTexts(items, indent, depth + 1);
    EachLayable(xs, indent, depth + 1);
    ItemLines(items, indent, depth);
    LayableBrackets(xs, indent * (depth + 1), ItemsText(items, indent, depth), indent * depth, "[\n", "]",
                    indent, depth);
  }

  lemma LayableObject(members: seq<Member>, indent: nat, depth: nat)
    requires members != []
    requires forall i :: 0 <= i < |members| ==> Layable(Text(members[i].value, indent, depth + 1), indent, depth + 1)
    ensures Layable(Text(Obj(members), indent, depth), indent, depth)
  {
    var xs := MemberTexts(members, indent, depth + 1);
    forall i | 0 <= i < |xs| ensures Layable(xs[i], indent, depth + 1) {
      LayableMember(members[i].key, Text(members[i].value, indent, depth + 1), indent, depth + 1);
    }
    EachLayable(xs, indent, depth + 1);
    MemberLines(members, indent, depth);
    LayableBrackets(xs, indent * (depth + 1), MembersText(members, indent, depth), indent * depth, "{\n", "}",
                    indent, depth);
  }

  lemma {:induction false} LayableText(v: Json, indent: nat, depth: nat)
    ensures Layable(Text(v, indent, depth), indent, depth)
    decreases v
  {
    match v
    case Arr(items) =>
      if items == [] {
        LayableEmpty("[]", indent, depth);
      } else {
        forall i | 0 <= i < |items| ensures Layable(Text(items[i], indent, depth + 1), indent, depth + 1) {
          LayableText(items[i], indent, depth + 1);
        }
        LayableArray(items, indent, depth);
      }
    case Obj(members) =>
      if members == [] {
        LayableEmpty("{}", indent, depth);
      } else {
        forall i | 0 <= i < |members| ensures Layable(Text(members[i].value, indent, depth + 1), indent, depth + 1) {
          LayableText(members[i].value, indent, depth + 1);
        }
        LayableObject(members, indent, depth);
      }
    case _ => LayableScalar(v, indent, depth);
  }

  // ----- the whole text

  /** Every text the printer produces is laid out like this, at every indent. */
  lemma PrintedLayout(v: Json, indent: nat)
    ensures WellLaid(Text(v, indent, 0), indent)
  {
    var t := Text(v, indent, 0);
    LayableText(v, indent, 0);
    assert At(t, 0, t);
    forall i: nat | i < |t| && ScanAt(t, i).Outside? ensures Fits(t, i, indent, ScanAt(t, i).open) {
      LaidAt(t, 0, |t|, indent, i);
    }
  }
}
