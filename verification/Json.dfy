/** The JSON value builder and pretty printer (nvidia/src/json.cpp). Strings are sequences of
    characters standing for bytes; doubles are not part of this model. */
module Json {
  import opened Decimal

  /** Objects keep their members in increasing key order, as std::map iterates them. */
  datatype Json =
    | Null
    | Bool(b: bool)
    | Signed(i: int)
    | Unsigned(u: nat)
    | Str(s: string)
    | Arr(items: seq<Json>)
    | Obj(members: seq<Member>)

  datatype Member = Member(key: string, value: Json)

  // ----- escape

  function HexDigit(d: nat): (c: char)
    requires d < 16
  {
    if d < 10 then DigitChar(d) else ('a' as int + (d - 10)) as char
  }

  function Hex4(code: nat): string
    requires code < 0x1_0000
  {
    [HexDigit(code / 4096), HexDigit(code / 256 % 16), HexDigit(code / 16 % 16), HexDigit(code % 16)]
  }

  predicate NeedsEscape(c: char) {
    c == '"' || c == '\\' || c as int < 0x20
  }

  /** What follows the backslash of an escape. */
  function EscapeTail(c: char): (e: string)
    requires NeedsEscape(c)
    ensures e != []
  {
    if c == '"' then "\""
    else if c == '\\' then "\\"
    else if c as int == 8 then "b"
    else if c as int == 12 then "f"
    else if c == '\n' then "n"
    else if c == '\r' then "r"
    else if c == '\t' then "t"
    else "u" + Hex4(c as int)
  }

  function EscapeChar(c: char): (e: string)
    ensures e != []
  {
    if NeedsEscape(c) then "\\" + EscapeTail(c) else [c]
  }

  function Escaped(s: string): string {
    if s == [] then [] else EscapeChar(s[0]) + Escaped(s[1..])
  }

  /** The escape of every single byte: two-character escapes, \\u00xx with lower-case digits for the
      other control characters, and everything else as it is. */
  lemma EscapeTable(c: char)
    ensures c == '"' ==> EscapeChar(c) == "\\\""
    ensures c == '\\' ==> EscapeChar(c) == "\\\\"
    ensures c == 8 as char ==> EscapeChar(c) == "\\b"
    ensures c == 12 as char ==> EscapeChar(c) == "\\f"
    ensures c == '\n' ==> EscapeChar(c) == "\\n"
    ensures c == '\r' ==> EscapeChar(c) == "\\r"
    ensures c == '\t' ==> EscapeChar(c) == "\\t"
    ensures c as int < 0x20 && c as int !in {8, 9, 10, 12, 13} ==>
      EscapeChar(c) == "\\u00" + ["0123456789abcdef"[c as int / 16], "0123456789abcdef"[c as int % 16]]
    ensures c as int >= 0x20 && c != '"' && c != '\\' ==> EscapeChar(c) == [c]
  {
    if c as int < 0x20 && c as int !in {8, 9, 10, 12, 13} {
      HexOfSmall(c as int);
    }
  }

  lemma HexOfSmall(code: nat)
    requires code < 0x20
    ensures Hex4(code) == "00" + ["0123456789abcdef"[code / 16], "0123456789abcdef"[code % 16]]
  {
    HexIsLower(code / 16);
    HexIsLower(code % 16);
  }

  lemma HexIsLower(d: nat)
    requires d < 16
    ensures HexDigit(d) == "0123456789abcdef"[d]
  {
  }

  /** Strings are escaped byte by byte. */
  lemma {:induction false} EscapedConcat(a: string, b: string)
    ensures Escaped(a + b) == Escaped(a) + Escaped(b)
  {
    if a == [] {
      assert a + b == b;
    } else {
      assert (a + b)[1..] == a[1..] + b;
      EscapedConcat(a[1..], b);
      Associate(EscapeChar(a[0]), Escaped(a[1..]), Escaped(b));
    }
  }

  lemma Associate(x: string, y: string, z: string)
    ensures x + (y + z) == (x + y) + z
  {
  }

  lemma EscapedByte(c: char)
    ensures Escaped([c]) == EscapeChar(c)
  {
    assert [c][1..] == [];
  }

  lemma EscapedStep(input: string, i: nat, out: string)
    requires i < |input|
    ensures out + Escaped(input[i..]) == (out + EscapeChar(input[i])) + Escaped(input[i + 1..])
  {
    assert input[i..][1..] == input[i + 1..];
  }

  method Escape(input: string) returns (out: string)
    ensures out == Escaped(input)
  {
    out := "";
    var i := 0;
    assert input[0..] == input;
    while i < |input|
      invariant 0 <= i <= |input|
      invariant out + Escaped(input[i..]) == Escaped(input)
    {
      EscapedStep(input, i, out);
      out := out + EscapeChar(input[i]);
      i := i + 1;
    }
  }

  // ----- dump

  function Pad(n: nat): string {
    seq(n, _ => ' ')
  }

  function Quoted(s: string): string {
    "\"" + (Escaped(s) + "\"")
  }

  /** The text dump_impl produces. */
  function Text(v: Json, indent: nat, depth: nat): (t: string)
    ensures t != []
    decreases v, 1
  {
    match v
    case Null => "null"
    case Bool(b) => if b then "true" else "false"
    case Signed(i) => SignedText(i)
    case Unsigned(u) => Digits(u)
    case Str(s) => Quoted(s)
    case Arr(items) =>
      if items == [] then "[]" else "[\n" + (ItemsText(items, indent, depth) + (Pad(indent * depth) + "]"))
    case Obj(members) =>
      if members == [] then "{}" else "{\n" + (MembersText(members, indent, depth) + (Pad(indent * depth) + "}"))
  }

  function ItemsText(items: seq<Json>, indent: nat, depth: nat): string
    requires items != []
    decreases items, 0
  {
    Pad(indent * (depth + 1)) + (Text(items[0], indent, depth + 1) +
    (if |items| == 1 then "\n" else ",\n" + ItemsText(items[1..], indent, depth)))
  }

  function MembersText(members: seq<Member>, indent: nat, depth: nat): string
    requires members != []
    decreases members, 0
  {
    Pad(indent * (depth + 1)) + (Quoted(members[0].key) + (": " + (Text(members[0].value, indent, depth + 1) +
    (if |members| == 1 then "\n" else ",\n" + MembersText(members[1..], indent, depth)))))
  }

  /** The words and brackets of scalars and empty values, at every indent and depth. */
  lemma ScalarText(indent: nat, depth: nat, s: string)
    ensures Text(Null, indent, depth) == "null"
    ensures Text(Bool(true), indent, depth) == "true" && Text(Bool(false), indent, depth) == "false"
    ensures Text(Arr([]), indent, depth) == "[]" && Text(Obj([]), indent, depth) == "{}"
    ensures Text(Str(s), indent, depth) == ("\"" + Escaped(s)) + "\""
  {
    Associate("\"", Escaped(s), "\"");
  }

  /** dump_impl, appending to a local stream. */
  method DumpImpl(v: Json, indent: nat, depth: nat) returns (out: string)
    ensures out == Text(v, indent, depth)
    decreases v, 1
  {
    match v
    case Null => out := "null";
    case Bool(b) => out := if b then "true" else "false";
    case Signed(i) => out := SignedText(i);
    case Unsigned(u) => out := Digits(u);
    case Str(s) =>
      var e := Escape(s);
      out := "\"" + (e + "\"");
    case Arr(items) =>
      if items == [] { return "[]"; }
      var lines := DumpItems(items, indent, depth);
      out := "[\n" + (lines + (Pad(indent * depth) + "]"));
    case Obj(members) =>
      if members == [] { return "{}"; }
      var lines := DumpMembers(members, indent, depth);
      out := "{\n" + (lines + (Pad(indent * depth) + "}"));
  }

  /** What is still to be written when the loop stands at item i. */
  function ItemsFrom(items: seq<Json>, i: nat, indent: nat, depth: nat): string
    requires i <= |items|
  {
    if i < |items| then ItemsText(items[i..], indent, depth) else ""
  }

  lemma ItemStep(items: seq<Json>, i: nat, indent: nat, depth: nat)
    requires i < |items|
    ensures ItemsFrom(items, i, indent, depth) ==
      Pad(indent * (depth + 1)) + (Text(items[i], indent, depth + 1) +
      ((if i + 1 != |items| then ",\n" else "\n") + ItemsFrom(items, i + 1, indent, depth)))
  {
    assert items[i..][0] == items[i] && items[i..][1..] == items[i + 1..];
    assert "\n" + "" == "\n";
  }

  method DumpItems(items: seq<Json>, indent: nat, depth: nat) returns (out: string)
    requires items != []
    ensures out == ItemsText(items, indent, depth)
    decreases items, 0
  {
    var childPad := Pad(indent * (depth + 1));
    out := "";
    var i := 0;
    assert items[0..] == items;
    while i < |items|
      invariant 0 <= i <= |items|
      invariant out + ItemsFrom(items, i, indent, depth) == ItemsText(items, indent, depth)
    {
      var t := DumpImpl(items[i], indent, depth + 1);
      var line := childPad + (t + if i + 1 != |items| then ",\n" else "\n");
      ItemStep(items, i, indent, depth);
      Regroup(out, childPad, t, if i + 1 != |items| then ",\n" else "\n", ItemsFrom(items, i + 1, indent, depth));
      out := out + line;
      i := i + 1;
    }
  }

  lemma Regroup(out: string, pad: string, t: string, sep: string, rest: string)
    ensures out + (pad + (t + (sep + rest))) == (out + (pad + (t + sep))) + rest
  {
  }

  function MembersFrom(members: seq<Member>, i: nat, indent: nat, depth: nat): string
    requires i <= |members|
  {
    if i < |members| then MembersText(members[i..], indent, depth) else ""
  }

  lemma MemberStep(members: seq<Member>, i: nat, indent: nat, depth: nat)
    requires i < |members|
    ensures MembersFrom(members, i, indent, depth) ==
      Pad(indent * (depth + 1)) + (Quoted(members[i].key) + (": " + (Text(members[i].value, indent, depth + 1) +
      ((if i + 1 != |members| then ",\n" else "\n") + MembersFrom(members, i + 1, indent, depth)))))
  {
    assert members[i..][0] == members[i] && members[i..][1..] == members[i + 1..];
    assert "\n" + "" == "\n";
  }

  method DumpMembers(members: seq<Member>, indent: nat, depth: nat) returns (out: string)
    requires members != []
    ensures out == MembersText(members, indent, depth)
    decreases members, 0
  {
    var childPad := Pad(indent * (depth + 1));
    out := "";
    var i := 0;
    assert members[0..] == members;
    while i < |members|
      invariant 0 <= i <= |members|
      invariant out + MembersFrom(members, i, indent, depth) == MembersText(members, indent, depth)
    {
      var k := Escape(members[i].key);
      var t := DumpImpl(members[i].value, indent, depth + 1);
      var sep := if i + 1 != |members| then ",\n" else "\n";
      var key := "\"" + (k + "\"");
      MemberStep(members, i, indent, depth);
      RegroupMember(out, childPad, key, ": ", t, sep, MembersFrom(members, i + 1, indent, depth));
      out := out + (childPad + (key + (": " + (t + sep))));
      i := i + 1;
    }
  }

  lemma RegroupMember(out: string, pad: string, key: string, colon: string, t: string, sep: string, rest: string)
    ensures out + (pad + (key + (colon + (t + (sep + rest))))) == (out + (pad + (key + (colon + (t + sep))))) + rest
  {
  }

  method Dump(v: Json, indent: nat) returns (out: string)
    ensures out == Text(v, indent, 0)
  {
    out := DumpImpl(v, indent, 0);
  }
}
