/** A reference reader for the grammar of sections 2 to 7 of RFC 8259, restricted to integer numbers,
    and the proof that it undoes the printer of nvidia/src/json.cpp. */
module JsonReader {
  import opened Decimal
  import opened Json

  /** What a document denotes: the two integer alternatives of the builder are one number. */
  datatype Doc =
    | DNull
    | DBool(b: bool)
    | DNumber(n: int)
    | DString(s: string)
    | DArray(items: seq<Doc>)
    | DObject(members: seq<(string, Doc)>)

  datatype Parsed<+T> = Fail | Ok(value: T, rest: string) {
    predicate IsFailure() { Fail? }
    function PropagateFailure<U>(): Parsed<U> requires Fail? { Fail }
    function Extract(): (T, string) requires Ok? { (value, rest) }
  }

  // ----- the reader

  predicate IsSpace(c: char) { c == ' ' || c == '\n' || c == '\r' || c == '\t' }

  function SkipSpace(s: string): (r: string)
    ensures |r| <= |s| && (r != [] ==> !IsSpace(r[0]))
  {
    if s != [] && IsSpace(s[0]) then SkipSpace(s[1..]) else s
  }

  function HexValue(c: char): Parsed<nat> {
    if IsDigit(c) then Ok(DigitValue(c), "")
    else if 'a' <= c <= 'f' then Ok(c as int - 'a' as int + 10, "")
    else if 'A' <= c <= 'F' then Ok(c as int - 'A' as int + 10, "")
    else Fail
  }

  /** The part of an escape after the backslash. Surrogates are outside this reader. */
  function ReadEscape(s: string): (r: Parsed<char>)
    ensures r.Ok? ==> |r.rest| < |s|
  {
    if s == [] then Fail
    else if s[0] == '"' || s[0] == '\\' || s[0] == '/' then Ok(s[0], s[1..])
    else if s[0] == 'b' then Ok(8 as char, s[1..])
    else if s[0] == 'f' then Ok(12 as char, s[1..])
    else if s[0] == 'n' then Ok('\n', s[1..])
    else if s[0] == 'r' then Ok('\r', s[1..])
    else if s[0] == 't' then Ok('\t', s[1..])
    else if s[0] == 'u' && |s| >= 5 then
      var (a, _) :- HexValue(s[1]);
      var (b, _) :- HexValue(s[2]);
      var (c, _) :- HexValue(s[3]);
      var (d, _) :- HexValue(s[4]);
      var code := a * 4096 + b * 256 + c * 16 + d;
      if code < 0xD800 then Ok(code as char, s[5..]) else Fail
    else Fail
  }

  /** The rest of a string after its opening quote. */
  function ReadString(s: string): (r: Parsed<string>)
    ensures r.Ok? ==> |r.rest| < |s|
    decreases |s|
  {
    if s == [] || s[0] as int < 0x20 then Fail
    else if s[0] == '"' then Ok("", s[1..])
    else if s[0] == '\\' then
      var (c, t) :- ReadEscape(s[1..]);
      var (cs, rest) :- ReadString(t);
      Ok([c] + cs, rest)
    else
      var (cs, rest) :- ReadString(s[1..]);
      Ok([s[0]] + cs, rest)
  }

  /** -? (0 | [1-9][0-9]*), not followed by a fraction or an exponent. */
  function ReadNumber(s: string): (r: Parsed<int>)
    ensures r.Ok? ==> |r.rest| < |s|
  {
    var negative := s != [] && s[0] == '-';
    var d := if negative then s[1..] else s;
    var n := DigitRun(d);
    if n == 0 || (n > 1 && d[0] == '0') || !Delimited(d[n..]) then Fail
    else
      var m: int := Value(d[..n]);
      Ok(if negative then -m else m, d[n..])
  }

  /** The text after a number does not continue it. */
  predicate Delimited(rest: string) {
    rest != [] ==> !IsDigit(rest[0]) && rest[0] != '.' && rest[0] != 'e' && rest[0] != 'E'
  }

  function ReadValue(s: string): (r: Parsed<Doc>)
    ensures r.Ok? ==> |r.rest| < |s|
    decreases |s|, 0
  {
    var t := SkipSpace(s);
    if t == [] then Fail
    else if t[0] == '[' then
      var u := SkipSpace(t[1..]);
      if u != [] && u[0] == ']' then Ok(DArray([]), u[1..])
      else
        var (items, rest) :- ReadItems(t[1..]);
        Ok(DArray(items), rest)
    else if t[0] == '{' then
      var u := SkipSpace(t[1..]);
      if u != [] && u[0] == '}' then Ok(DObject([]), u[1..])
      else
        var (members, rest) :- ReadMembers(t[1..]);
        Ok(DObject(members), rest)
    else if t[0] == '"' then
      var (str, rest) :- ReadString(t[1..]);
      Ok(DString(str), rest)
    else if "null" <= t then Ok(DNull, t[4..])
    else if "true" <= t then Ok(DBool(true), t[4..])
    else if "false" <= t then Ok(DBool(false), t[5..])
    else
      var (n, rest) :- ReadNumber(t);
      Ok(DNumber(n), rest)
  }

  /** One or more values separated by commas, up to the closing bracket. */
  function ReadItems(s: string): (r: Parsed<seq<Doc>>)
    ensures r.Ok? ==> |r.rest| < |s|
    decreases |s|, 1
  {
    var (v, rest) :- ReadValue(s);
    var t := SkipSpace(rest);
    if t == [] then Fail
    else if t[0] == ']' then Ok([v], t[1..])
    else if t[0] == ',' then
      var (vs, rest') :- ReadItems(t[1..]);
      Ok([v] + vs, rest')
    else Fail
  }

  function ReadMembers(s: string): (r: Parsed<seq<(string, Doc)>>)
    ensures r.Ok? ==> |r.rest| < |s|
    decreases |s|, 1
  {
    var q := SkipSpace(s);
    if q == [] || q[0] != '"' then Fail
    else
      var (key, afterKey) :- ReadString(q[1..]);
      var c := SkipSpace(afterKey);
      if c == [] || c[0] != ':' then Fail
      else
        var (v, rest) :- ReadValue(c[1..]);
        var t := SkipSpace(rest);
        if t == [] then Fail
        else if t[0] == '}' then Ok([(key, v)], t[1..])
        else if t[0] == ',' then
          var (ms, rest') :- ReadMembers(t[1..]);
          Ok([(key, v)] + ms, rest')
        else Fail
  }

  /** A whole text: one value, with space around it. */
  function Read(s: string): (r: Parsed<Doc>) {
    var (v, rest) :- ReadValue(s);
    if SkipSpace(rest) == [] then Ok(v, []) else Fail
  }

  // ----- what a tree denotes

  function Meaning(v: Json): Doc
    decreases v, 1
  {
    match v
    case Null => DNull
    case Bool(b) => DBool(b)
    case Signed(i) => DNumber(i)
    case Unsigned(u) => DNumber(u)
    case Str(s) => DString(s)
    case Arr(items) => DArray(ItemMeanings(items))
    case Obj(members) => DObject(MemberMeanings(members))
  }

  function ItemMeanings(items: seq<Json>): seq<Doc>
    decreases items, 0
  {
    if items == [] then [] else [Meaning(items[0])] + ItemMeanings(items[1..])
  }

  function MemberMeanings(members: seq<Member>): seq<(string, Doc)>
    decreases members, 0
  {
    if members == [] then [] else [(members[0].key, Meaning(members[0].value))] + MemberMeanings(members[1..])
  }

  // ----- strings

  lemma HexRead(code: nat, t: string)
    requires code < 0x20
    ensures ReadEscape(("u" + Hex4(code)) + t) == Ok(code as char, t)
  {
    var s := ("u" + Hex4(code)) + t;
    assert HexValue(s[1]) == Ok(0, "") && HexValue(s[2]) == Ok(0, "");
    assert HexValue(s[3]) == Ok(code / 16, "") && HexValue(s[4]) == Ok(code % 16, "");
    assert s[5..] == t;
  }

  lemma TailRead(c: char, t: string)
    requires NeedsEscape(c)
    ensures ReadEscape(EscapeTail(c) + t) == Ok(c, t)
  {
    if |EscapeTail(c)| > 1 {
      HexRead(c as int, t);
    } else {
      assert (EscapeTail(c) + t)[1..] == t;
    }
  }

  function Prepend(c: char, r: Parsed<string>): Parsed<string> {
    if r.Ok? then Ok([c] + r.value, r.rest) else Fail
  }

  lemma EscapedRead(c: char, t: string)
    requires NeedsEscape(c)
    ensures ReadString(("\\" + EscapeTail(c)) + t) == Prepend(c, ReadString(t))
  {
    TailRead(c, t);
    BackslashRead(EscapeTail(c), c, t);
  }

  lemma BackslashRead(e: string, c: char, t: string)
    requires ReadEscape(e + t) == Ok(c, t)
    ensures ReadString(("\\" + e) + t) == Prepend(c, ReadString(t))
  {
    assert (("\\" + e) + t)[1..] == e + t;
  }

  lemma EscapeCharRead(c: char, t: string)
    ensures ReadString(EscapeChar(c) + t) == Prepend(c, ReadString(t))
  {
    if NeedsEscape(c) {
      EscapedRead(c, t);
    } else {
      assert ([c] + t)[1..] == t;
    }
  }

  lemma {:induction false} StringRead(s: string, rest: string)
    ensures ReadString(Escaped(s) + ("\"" + rest)) == Ok(s, rest)
  {
    if s == [] {
      assert Escaped(s) + ("\"" + rest) == "\"" + rest;
    } else {
      var t := Escaped(s[1..]) + ("\"" + rest);
      StringRead(s[1..], rest);
      EscapeCharRead(s[0], t);
      Reassociate(EscapeChar(s[0]), Escaped(s[1..]), "\"" + rest);
      assert [s[0]] + s[1..] == s;
    }
  }

  lemma Reassociate(a: string, b: string, c: string)
    ensures (a + b) + c == a + (b + c)
  {
  }

  // ----- numbers

  lemma NaturalRead(m: nat, rest: string)
    requires Delimited(rest)
    ensures var d := Digits(m) + rest; var n := DigitRun(d);
      n > 0 && (n > 1 ==> d[0] != '0') && d[n..] == rest && Value(d[..n]) == m && d[0] != '-'
  {
    var d := Digits(m);
    ValueOfDigits(m);
    RunOfDigits(d, rest);
    assert (d + rest)[..|d|] == d && (d + rest)[|d|..] == rest;
  }

  lemma NumberFromParts(s: string, d: string, n: nat, m: int, rest: string)
    requires s != [] && d == (if s[0] == '-' then s[1..] else s) && n == DigitRun(d)
    requires 0 < n && (n > 1 ==> d[0] != '0') && d[n..] == rest && Delimited(rest) && Value(d[..n]) == m
    ensures ReadNumber(s) == Ok(if s[0] == '-' then -m else m, rest)
  {
  }

  lemma NumberRead(i: int, rest: string)
    requires Delimited(rest)
    ensures ReadNumber(SignedText(i) + rest) == Ok(i, rest)
  {
    var m := if i < 0 then -i else i;
    var d := Digits(m) + rest;
    NaturalRead(m, rest);
    if i < 0 {
      Reassociate("-", Digits(m), rest);
      assert ("-" + d)[1..] == d;
    }
    NumberFromParts(SignedText(i) + rest, d, DigitRun(d), m, rest);
  }

  /** A number's text starts with a digit or a minus sign. */
  lemma NumberStart(i: int)
    ensures SignedText(i)[0] == '-' || IsDigit(SignedText(i)[0])
  {
    ValueOfDigits(if i < 0 then -i else i);
  }

  // ----- white space

  /** A value's text starts with a character that is neither space nor a closing bracket. */
  lemma TextStart(v: Json, indent: nat, depth: nat)
    ensures var c := Text(v, indent, depth)[0]; !IsSpace(c) && c != ']' && c != '}' && c != ','
  {
    match v
    case Signed(i) => NumberStart(i);
    case Unsigned(u) => NumberStart(u);
    case _ =>
  }

  lemma NoSkip(t: string, rest: string)
    requires t != [] && !IsSpace(t[0])
    ensures SkipSpace(t + rest) == t + rest
  {
  }

  // ----- round trip

  lemma ReadScalar(v: Json, indent: nat, depth: nat, rest: string)
    requires !v.Arr? && !v.Obj? && Delimited(rest)
    ensures ReadValue(Text(v, indent, depth) + rest) == Ok(Meaning(v), rest)
  {
    var t := Text(v, indent, depth);
    TextStart(v, indent, depth);
    NoSkip(t, rest);
    match v
    case Null => assert (t + rest)[..4] == "null" && (t + rest)[4..] == rest;
    case Bool(b) =>
      if b {
        assert (t + rest)[..4] == "true" && (t + rest)[4..] == rest;
      } else {
        assert (t + rest)[..5] == "false" && (t + rest)[5..] == rest;
      }
    case Signed(i) => ReadNumeral(i, rest);
    case Unsigned(u) => ReadNumeral(u, rest);
    case Str(s) => ReadQuoted(s, rest);
  }

  lemma ReadQuoted(s: string, rest: string)
    ensures Quoted(s) + rest == "\"" + (Escaped(s) + ("\"" + rest))
    ensures ReadString((Quoted(s) + rest)[1..]) == Ok(s, rest)
  {
    StringRead(s, rest);
    Reassociate("\"", Escaped(s) + "\"", rest);
    Reassociate(Escaped(s), "\"", rest);
    assert (Quoted(s) + rest)[1..] == Escaped(s) + ("\"" + rest);
  }

  lemma ReadNumeral(i: int, rest: string)
    requires Delimited(rest)
    ensures ReadValue(SignedText(i) + rest) == Ok(DNumber(i), rest)
  {
    NumberStart(i);
    NoSkip(SignedText(i), rest);
    NumberRead(i, rest);
  }

  // ----- the pieces of an array or object, whatever they consist of

  predicate Blank(p: string) {
    forall i :: 0 <= i < |p| ==> p[i] == ' '
  }

  lemma {:induction false} SkipBlank(p: string, s: string)
    requires Blank(p)
    ensures SkipSpace(p + s) == SkipSpace(s)
  {
    if p == [] {
      assert p + s == s;
    } else {
      SkipBlank(p[1..], s);
      assert (p + s)[1..] == p[1..] + s;
    }
  }

  lemma NewlineSkip(s: string)
    ensures SkipSpace("\n" + s) == SkipSpace(s) == SkipSpace(" " + s)
  {
    assert ("\n" + s)[1..] == s && (" " + s)[1..] == s;
  }

  /** Readers do not depend on leading space. */
  lemma SameStart(s: string, t: string)
    requires SkipSpace(s) == SkipSpace(t)
    ensures ReadValue(s) == ReadValue(t)
    ensures ReadItems(s) == ReadItems(t)
    ensures ReadMembers(s) == ReadMembers(t)
  {
  }

  lemma Line(p: string, t: string, x: string)
    requires Blank(p) && t != [] && !IsSpace(t[0])
    ensures SkipSpace(p + (t + x)) == t + x
    ensures ReadValue(p + (t + x)) == ReadValue(t + x)
  {
    SkipBlank(p, t + x);
    NoSkip(t, x);
    SameStart(p + (t + x), t + x);
  }

  lemma LastItem(p: string, t: string, d: Doc, tail: string, rest: string)
    requires Blank(p) && t != [] && !IsSpace(t[0])
    requires ReadValue(t + ("\n" + tail)) == Ok(d, "\n" + tail)
    requires SkipSpace(tail) == "]" + rest
    ensures ReadItems((p + (t + "\n")) + tail) == Ok([d], rest)
  {
    Line(p, t, "\n" + tail);
    Regroup3(p, t, "\n", tail);
    NewlineSkip(tail);
    assert ("]" + rest)[1..] == rest;
  }

  lemma MoreItems(p: string, t: string, d: Doc, others: string, tail: string, ds: seq<Doc>, rest: string)
    requires Blank(p) && t != [] && !IsSpace(t[0])
    requires ReadValue(t + (",\n" + (others + tail))) == Ok(d, ",\n" + (others + tail))
    requires ReadItems(others + tail) == Ok(ds, rest)
    ensures ReadItems((p + (t + (",\n" + others))) + tail) == Ok([d] + ds, rest)
  {
    Line(p, t, ",\n" + (others + tail));
    Regroup4(p, t, ",\n", others, tail);
    AfterComma(others + tail);
    SameStart("\n" + (others + tail), others + tail);
  }

  lemma AfterComma(s: string)
    ensures SkipSpace(",\n" + s) == ",\n" + s && (",\n" + s)[1..] == "\n" + s
    ensures SkipSpace("\n" + s) == SkipSpace(s)
  {
    NewlineSkip(s);
  }

  /** Key, colon and value of a member on its line. */
  lemma MemberLine(p: string, q: string, t: string, d: Doc, after: string)
    requires Blank(p) && q != [] && q[0] == '"' && t != [] && !IsSpace(t[0])
    requires ReadValue(t + after) == Ok(d, after)
    ensures SkipSpace(p + (q + (": " + (t + after)))) == q + (": " + (t + after))
    ensures SkipSpace(": " + (t + after)) == ": " + (t + after)
    ensures ReadValue((": " + (t + after))[1..]) == Ok(d, after)
  {
    Line(p, q, ": " + (t + after));
    AfterColon(t + after);
    Line(" ", t, after);
  }

  lemma AfterColon(s: string)
    ensures SkipSpace(": " + s) == ": " + s && (": " + s)[1..] == " " + s
  {
  }

  lemma DropBrace(rest: string)
    ensures ("}" + rest)[1..] == rest && ("}" + rest)[0] == '}'
  {
  }

  lemma LastMember(p: string, q: string, key: string, t: string, d: Doc, tail: string, rest: string)
    requires Blank(p) && q != [] && q[0] == '"' && t != [] && !IsSpace(t[0])
    requires ReadString((q + (": " + (t + ("\n" + tail))))[1..]) == Ok(key, ": " + (t + ("\n" + tail)))
    requires ReadValue(t + ("\n" + tail)) == Ok(d, "\n" + tail)
    requires SkipSpace(tail) == "}" + rest
    ensures ReadMembers((p + (q + (": " + (t + "\n")))) + tail) == Ok([(key, d)], rest)
  {
    MemberLine(p, q, t, d, "\n" + tail);
    Regroup4(p, q, ": ", t + "\n", tail);
    Reassociate(t, "\n", tail);
    NewlineSkip(tail);
    DropBrace(rest);
  }

  lemma MoreMembers(p: string, q: string, key: string, t: string, d: Doc, others: string, tail: string,
                    ms: seq<(string, Doc)>, rest: string)
    requires Blank(p) && q != [] && q[0] == '"' && t != [] && !IsSpace(t[0])
    requires ReadString((q + (": " + (t + (",\n" + (others + tail)))))[1..])
      == Ok(key, ": " + (t + (",\n" + (others + tail))))
    requires ReadValue(t + (",\n" + (others + tail))) == Ok(d, ",\n" + (others + tail))
    requires ReadMembers(others + tail) == Ok(ms, rest)
    ensures ReadMembers((p + (q + (": " + (t + (",\n" + others))))) + tail) == Ok([(key, d)] + ms, rest)
  {
    MemberLine(p, q, t, d, ",\n" + (others + tail));
    Regroup4(p, q, ": ", t + (",\n" + others), tail);
    Regroup3(t, ",\n", others, tail);
    AfterComma(others + tail);
    SameStart("\n" + (others + tail), others + tail);
  }

  lemma Regroup3(a: string, b: string, c: string, tail: string)
    ensures (a + (b + c)) + tail == a + (b + (c + tail))
  {
    Reassociate(a, b + c, tail);
    Reassociate(b, c, tail);
  }

  lemma Regroup4(a: string, b: string, c: string, d: string, tail: string)
    ensures (a + (b + (c + d))) + tail == a + (b + (c + (d + tail)))
  {
    Regroup3(a, b, c + d, tail);
    Reassociate(c, d, tail);
  }

  /** The text inside the brackets, once the opening one is read. */
  lemma Inside(open: string, lines: string, pad: string, close: string, rest: string)
    requires |open| == 2 && open[1] == '\n'
    ensures ((open + (lines + (pad + close))) + rest)[0] == open[0]
    ensures ((open + (lines + (pad + close))) + rest)[1..] == "\n" + (lines + (pad + (close + rest)))
  {
    Regroup4(open, lines, pad, close, rest);
    var s := lines + (pad + (close + rest));
    assert (open + s)[1..] == "\n" + s;
  }

  /** The first character that is not space. */
  predicate StartsWith(s: string, c: char) {
    SkipSpace(s) != [] && SkipSpace(s)[0] == c
  }

  lemma BracketedItems(lines: string, pad: string, ds: seq<Doc>, rest: string)
    requires ReadItems(lines + (pad + ("]" + rest))) == Ok(ds, rest)
    requires !StartsWith(lines + (pad + ("]" + rest)), ']')
    ensures ReadValue(("[\n" + (lines + (pad + "]"))) + rest) == Ok(DArray(ds), rest)
  {
    Inside("[\n", lines, pad, "]", rest);
    var s := lines + (pad + ("]" + rest));
    NewlineSkip(s);
    SameStart("\n" + s, s);
  }

  lemma BracedMembers(lines: string, pad: string, ms: seq<(string, Doc)>, rest: string)
    requires ReadMembers(lines + (pad + ("}" + rest))) == Ok(ms, rest)
    requires !StartsWith(lines + (pad + ("}" + rest)), '}')
    ensures ReadValue(("{\n" + (lines + (pad + "}"))) + rest) == Ok(DObject(ms), rest)
  {
    Inside("{\n", lines, pad, "}", rest);
    var s := lines + (pad + ("}" + rest));
    NewlineSkip(s);
    SameStart("\n" + s, s);
  }

  lemma EmptyBrackets(rest: string)
    ensures ReadValue("[]" + rest) == Ok(DArray([]), rest)
    ensures ReadValue("{}" + rest) == Ok(DObject([]), rest)
  {
    assert ("[]" + rest)[1..] == "]" + rest && ("]" + rest)[1..] == rest;
    assert ("{}" + rest)[1..] == "}" + rest && ("}" + rest)[1..] == rest;
  }

  // ----- the round trip

  lemma ItemsStart(items: seq<Json>, indent: nat, depth: nat, tail: string)
    requires items != []
    ensures !StartsWith(ItemsText(items, indent, depth) + tail, ']')
  {
    var n := indent * (depth + 1);
    var t := Text(items[0], indent, depth + 1);
    var x := if |items| == 1 then "\n" else ",\n" + ItemsText(items[1..], indent, depth);
    TextStart(items[0], indent, depth + 1);
    Regroup3(Pad(n), t, x, tail);
    Line(Pad(n), t, x + tail);
  }

  lemma MembersStart(members: seq<Member>, indent: nat, depth: nat, tail: string)
    requires members != []
    ensures !StartsWith(MembersText(members, indent, depth) + tail, '}')
  {
    var n := indent * (depth + 1);
    var q := Quoted(members[0].key);
    var x := ": " + (Text(members[0].value, indent, depth + 1) +
      (if |members| == 1 then "\n" else ",\n" + MembersText(members[1..], indent, depth)));
    Regroup3(Pad(n), q, x, tail);
    Line(Pad(n), q, x + tail);
  }

  lemma JoinArray(items: seq<Json>, indent: nat, depth: nat, rest: string)
    requires items != []
    requires ReadItems(ItemsText(items, indent, depth) + (Pad(indent * depth) + ("]" + rest)))
      == Ok(ItemMeanings(items), rest)
    ensures ReadValue(Text(Arr(items), indent, depth) + rest) == Ok(DArray(ItemMeanings(items)), rest)
  {
    ItemsStart(items, indent, depth, Pad(indent * depth) + ("]" + rest));
    BracketedItems(ItemsText(items, indent, depth), Pad(indent * depth), ItemMeanings(items), rest);
  }

  lemma JoinObject(members: seq<Member>, indent: nat, depth: nat, rest: string)
    requires members != []
    requires ReadMembers(MembersText(members, indent, depth) + (Pad(indent * depth) + ("}" + rest)))
      == Ok(MemberMeanings(members), rest)
    ensures ReadValue(Text(Obj(members), indent, depth) + rest) == Ok(DObject(MemberMeanings(members)), rest)
  {
    MembersStart(members, indent, depth, Pad(indent * depth) + ("}" + rest));
    BracedMembers(MembersText(members, indent, depth), Pad(indent * depth), MemberMeanings(members), rest);
  }

  /** Reading a printed value gives its meaning back and stops where the print ended, at every indent
      and depth. */
  lemma {:induction false} ReadText(v: Json, indent: nat, depth: nat, rest: string)
    requires Delimited(rest)
    ensures ReadValue(Text(v, indent, depth) + rest) == Ok(Meaning(v), rest)
    decreases v, 1
  {
    match v
    case Arr(items) =>
      if items == [] {
        EmptyBrackets(rest);
      } else {
        SkipBlank(Pad(indent * depth), "]" + rest);
        ReadItemsText(items, indent, depth, Pad(indent * depth) + ("]" + rest), rest);
        JoinArray(items, indent, depth, rest);
      }
    case Obj(members) =>
      if members == [] {
        EmptyBrackets(rest);
      } else {
        SkipBlank(Pad(indent * depth), "}" + rest);
        ReadMembersText(members, indent, depth, Pad(indent * depth) + ("}" + rest), rest);
        JoinObject(members, indent, depth, rest);
      }
    case _ => ReadScalar(v, indent, depth, rest);
  }

  lemma {:induction false} ReadItemsText(items: seq<Json>, indent: nat, depth: nat, tail: string, rest: string)
    requires items != [] && SkipSpace(tail) == "]" + rest
    ensures ReadItems(ItemsText(items, indent, depth) + tail) == Ok(ItemMeanings(items), rest)
    decreases items, 0
  {
    var p, t := Pad(indent * (depth + 1)), Text(items[0], indent, depth + 1);
    TextStart(items[0], indent, depth + 1);
    if |items| == 1 {
      ReadText(items[0], indent, depth + 1, "\n" + tail);
      LastItem(p, t, Meaning(items[0]), tail, rest);
      OneItem(items);
    } else {
      ReadItemsText(items[1..], indent, depth, tail, rest);
      var others := ItemsText(items[1..], indent, depth);
      ReadText(items[0], indent, depth + 1, ",\n" + (others + tail));
      MoreItems(p, t, Meaning(items[0]), others, tail, ItemMeanings(items[1..]), rest);
    }
  }

  lemma OneItem(items: seq<Json>)
    requires |items| == 1
    ensures ItemMeanings(items) == [Meaning(items[0])]
  {
    assert items[1..] == [];
  }

  lemma OneMember(members: seq<Member>)
    requires |members| == 1
    ensures MemberMeanings(members) == [(members[0].key, Meaning(members[0].value))]
  {
    assert members[1..] == [];
  }

  lemma LastMemberText(m: Member, indent: nat, depth: nat, p: string, tail: string, rest: string)
    requires Blank(p) && SkipSpace(tail) == "}" + rest
    requires ReadValue(Text(m.value, indent, depth) + ("\n" + tail)) == Ok(Meaning(m.value), "\n" + tail)
    ensures ReadMembers((p + (Quoted(m.key) + (": " + (Text(m.value, indent, depth) + "\n")))) + tail)
      == Ok([(m.key, Meaning(m.value))], rest)
  {
    var t := Text(m.value, indent, depth);
    TextStart(m.value, indent, depth);
    ReadQuoted(m.key, ": " + (t + ("\n" + tail)));
    LastMember(p, Quoted(m.key), m.key, t, Meaning(m.value), tail, rest);
  }

  lemma MoreMembersText(m: Member, indent: nat, depth: nat, p: string, others: string, tail: string,
                        ms: seq<(string, Doc)>, rest: string)
    requires Blank(p) && ReadMembers(others + tail) == Ok(ms, rest)
    requires ReadValue(Text(m.value, indent, depth) + (",\n" + (others + tail)))
      == Ok(Meaning(m.value), ",\n" + (others + tail))
    ensures ReadMembers((p + (Quoted(m.key) + (": " + (Text(m.value, indent, depth) + (",\n" + others))))) + tail)
      == Ok([(m.key, Meaning(m.value))] + ms, rest)
  {
    var t := Text(m.value, indent, depth);
    TextStart(m.value, indent, depth);
    ReadQuoted(m.key, ": " + (t + (",\n" + (others + tail))));
    MoreMembers(p, Quoted(m.key), m.key, t, Meaning(m.value), others, tail, ms, rest);
  }

  lemma JoinMembers(members: seq<Member>, indent: nat, depth: nat, others: string, ms: seq<(string, Doc)>,
                    tail: string, rest: string)
    requires |members| > 1 && others == MembersText(members[1..], indent, depth) && ms == MemberMeanings(members[1..])
    requires ReadMembers(others + tail) == Ok(ms, rest)
    requires ReadValue(Text(members[0].value, indent, depth + 1) + (",\n" + (others + tail)))
      == Ok(Meaning(members[0].value), ",\n" + (others + tail))
    ensures ReadMembers(MembersText(members, indent, depth) + tail) == Ok(MemberMeanings(members), rest)
  {
    MembersTextMore(members, indent, depth);
    MoreMembersText(members[0], indent, depth + 1, Pad(indent * (depth + 1)), others, tail, ms, rest);
  }

  lemma MembersTextMore(members: seq<Member>, indent: nat, depth: nat)
    requires |members| > 1
    ensures MembersText(members, indent, depth) ==
      Pad(indent * (depth + 1)) + (Quoted(members[0].key) + (": " + (Text(members[0].value, indent, depth + 1) +
      (",\n" + MembersText(members[1..], indent, depth)))))
    ensures MemberMeanings(members) == [(members[0].key, Meaning(members[0].value))] + MemberMeanings(members[1..])
  {
  }

  lemma CloseMembers(members: seq<Member>, indent: nat, depth: nat, tail: string, rest: string)
    requires |members| == 1 && SkipSpace(tail) == "}" + rest
    requires ReadValue(Text(members[0].value, indent, depth + 1) + ("\n" + tail))
      == Ok(Meaning(members[0].value), "\n" + tail)
    ensures ReadMembers(MembersText(members, indent, depth) + tail) == Ok(MemberMeanings(members), rest)
  {
    LastMemberText(members[0], indent, depth + 1, Pad(indent * (depth + 1)), tail, rest);
    OneMember(members);
  }

  lemma {:induction false} ReadMembersText(members: seq<Member>, indent: nat, depth: nat, tail: string, rest: string)
    requires members != [] && SkipSpace(tail) == "}" + rest
    ensures ReadMembers(MembersText(members, indent, depth) + tail) == Ok(MemberMeanings(members), rest)
    decreases members, 0
  {
    var m := members[0];
    if |members| == 1 {
      ReadText(m.value, indent, depth + 1, "\n" + tail);
      CloseMembers(members, indent, depth, tail, rest);
    } else {
      var others := MembersText(members[1..], indent, depth);
      ReadMembersText(members[1..], indent, depth, tail, rest);
      ReadText(m.value, indent, depth + 1, ",\n" + (others + tail));
      JoinMembers(members, indent, depth, others, MemberMeanings(members[1..]), tail, rest);
    }
  }

  /** Printing, then reading, gives the value back; a final newline, as the report writer adds, does
      not matter. */
  lemma RoundTrip(v: Json, indent: nat)
    ensures Read(Text(v, indent, 0)) == Ok(Meaning(v), [])
    ensures Read(Text(v, indent, 0) + "\n") == Ok(Meaning(v), [])
  {
    var t := Text(v, indent, 0);
    ReadText(v, indent, 0, "");
    assert t + "" == t;
    ReadText(v, indent, 0, "\n");
    NewlineSkip("");
    assert "\n" + "" == "\n";
  }

  // ----- the text is determined by the meaning, and determines it

  lemma {:induction false} SameText(v: Json, w: Json, indent: nat, depth: nat)
    requires Meaning(v) == Meaning(w)
    ensures Text(v, indent, depth) == Text(w, indent, depth)
    decreases v, 1
  {
    match v
    case Arr(items) => SameItemsText(items, w.items, indent, depth);
    case Obj(members) => SameMembersText(members, w.members, indent, depth);
    case _ =>
  }

  lemma {:induction false} SameItemsText(a: seq<Json>, b: seq<Json>, indent: nat, depth: nat)
    requires ItemMeanings(a) == ItemMeanings(b)
    ensures |a| == |b| && (a != [] ==> ItemsText(a, indent, depth) == ItemsText(b, indent, depth))
    decreases a, 0
  {
    if a == [] || b == [] {
    } else {
      TailsAgree(Meaning(a[0]), ItemMeanings(a[1..]), Meaning(b[0]), ItemMeanings(b[1..]));
      SameText(a[0], b[0], indent, depth + 1);
      SameItemsText(a[1..], b[1..], indent, depth);
    }
  }

  lemma TailsAgree<T>(x: T, xs: seq<T>, y: T, ys: seq<T>)
    requires [x] + xs == [y] + ys
    ensures x == y && xs == ys
  {
    assert ([x] + xs)[0] == ([y] + ys)[0];
    assert xs == ([x] + xs)[1..] && ys == ([y] + ys)[1..];
  }

  lemma {:induction false} SameMembersText(a: seq<Member>, b: seq<Member>, indent: nat, depth: nat)
    requires MemberMeanings(a) == MemberMeanings(b)
    ensures |a| == |b| && (a != [] ==> MembersText(a, indent, depth) == MembersText(b, indent, depth))
    decreases a, 0
  {
    if a == [] || b == [] {
    } else {
      TailsAgree((a[0].key, Meaning(a[0].value)), MemberMeanings(a[1..]),
                 (b[0].key, Meaning(b[0].value)), MemberMeanings(b[1..]));
      SameText(a[0].value, b[0].value, indent, depth + 1);
      SameMembersText(a[1..], b[1..], indent, depth);
    }
  }

  /** Two trees print alike, at any indent and depth, exactly when they denote the same document. */
  lemma PrintIsFaithful(v: Json, w: Json, indent: nat, depth: nat)
    ensures Text(v, indent, depth) == Text(w, indent, depth) <==> Meaning(v) == Meaning(w)
  {
    if Meaning(v) == Meaning(w) {
      SameText(v, w, indent, depth);
    }
    ReadText(v, indent, depth, "");
    ReadText(w, indent, depth, "");
  }
}
