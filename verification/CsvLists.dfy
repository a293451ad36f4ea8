/** Number and list parsing of the command line (nvidia/src/cli.cpp). */
module CsvLists {
  import opened Decimal

  datatype Error =
    | InvalidInteger | InvalidPositive | EmptyToken | NegativeGpu
    | MissingValue | NegativeValue | UnknownArgument | UnknownProbe | UnknownMode | EmptyOutput

  datatype Result<T> = Ok(value: T) | Err(error: Error)

  const INT_MIN: int := -0x8000_0000
  const INT_MAX: int := 0x7fff_ffff
  const U64_MAX: int := 0xffff_ffff_ffff_ffff

  // ----- std::from_chars and the two number parsers

  datatype Code = Success | InvalidArgument | OutOfRange
  datatype Scan = Scan(code: Code, ptr: nat, value: int)

  /** Base-ten std::from_chars: an optional minus sign for signed targets, then the longest run of
      digits; the value must fit the target. */
  function FromChars(s: string, isSigned: bool, lo: int, hi: int): (r: Scan)
    ensures r.ptr <= |s|
  {
    var start := if isSigned && s != [] && s[0] == '-' then 1 else 0;
    var n := DigitRun(s[start..]);
    if n == 0 then Scan(InvalidArgument, 0, 0)
    else
      var v: int := Value(s[start..][..n]);
      var parsed: int := if start == 1 then -v else v;
      if lo <= parsed <= hi then Scan(Success, start + n, parsed) else Scan(OutOfRange, start + n, 0)
  }

  function ParseInt(s: string): Result<int> {
    var r := FromChars(s, true, INT_MIN, INT_MAX);
    if !r.code.Success? || r.ptr != |s| then Err(InvalidInteger) else Ok(r.value)
  }

  function ParseU64(s: string): Result<int> {
    var r := FromChars(s, false, 0, U64_MAX);
    if !r.code.Success? || r.ptr != |s| || r.value == 0 then Err(InvalidPositive) else Ok(r.value)
  }

  /** Digits with at most a leading minus sign; leading zeros and "-0" included. */
  predicate IsInteger(s: string) {
    s != [] && (if s[0] == '-' then |s| > 1 && AllDigits(s[1..]) else AllDigits(s))
  }

  function IntegerValue(s: string): int
    requires IsInteger(s)
  {
    if s[0] == '-' then -(Value(s[1..]) as int) else Value(s)
  }

  /** The integer texts: digits, or a minus sign and digits; no plus sign, no space. */
  lemma IntegerTexts(s: string)
    ensures IsInteger(s) <==> (s != "" && AllDigits(s)) || (|s| > 1 && s[0] == '-' && AllDigits(s[1..]))
    ensures s != "" && AllDigits(s) ==> IntegerValue(s) == Value(s)
    ensures |s| > 1 && s[0] == '-' && AllDigits(s[1..]) ==> IntegerValue(s) == -(Value(s[1..]) as int)
  {
    if s != "" && AllDigits(s) { assert IsDigit(s[0]); }
  }

  lemma {:induction false} WholeRun(s: string)
    ensures DigitRun(s) == |s| <==> AllDigits(s)
  {
    if AllDigits(s) {
      RunOfDigits(s, "");
      assert s + "" == s;
    } else {
      assert s[..|s|] == s;
    }
  }

  /** parse_int accepts exactly the integer texts whose value fits an int, and returns that value. */
  lemma ParseIntLanguage(s: string, n: int)
    ensures ParseInt(s) == Ok(n) <==> IsInteger(s) && IntegerValue(s) == n && -0x8000_0000 <= n <= 0x7fff_ffff
  {
    var start := if s != [] && s[0] == '-' then 1 else 0;
    var d := s[start..];
    WholeRun(d);
    assert d[..|d|] == d;
    if start == 0 { assert d == s; }
  }

  /** parse_u64 accepts exactly the digit strings denoting 1 to 2^64 - 1. */
  lemma ParseU64Language(s: string, n: int)
    ensures ParseU64(s) == Ok(n) <==> s != [] && AllDigits(s) && Value(s) == n && 1 <= n <= 0xffff_ffff_ffff_ffff
  {
    assert s[0..] == s;
    WholeRun(s);
    assert s[..|s|] == s;
  }

  // ----- comma-separated lists

  /** csv.find(',', 0), or the length. */
  function FirstComma(s: string): (c: nat)
    ensures c <= |s| && ',' !in s[..c] && (c < |s| ==> s[c] == ',')
  {
    if s == [] || s[0] == ',' then 0
    else
      var c := 1 + FirstComma(s[1..]);
      assert s[..c] == [s[0]] + s[1..][..c - 1];
      c
  }

  function Split(s: string): (ts: seq<string>)
    ensures ts != []
    decreases |s|
  {
    var c := FirstComma(s);
    if c == |s| then [s] else [s[..c]] + Split(s[c + 1..])
  }

  function Join(ts: seq<string>): string
    requires ts != []
  {
    if |ts| == 1 then ts[0] else ts[0] + ("," + Join(ts[1..]))
  }

  predicate CommaFree(ts: seq<string>) {
    forall i :: 0 <= i < |ts| ==> ',' !in ts[i]
  }

  lemma {:induction false} TokensCommaFree(s: string)
    ensures CommaFree(Split(s))
    decreases |s|
  {
    var c := FirstComma(s);
    if c < |s| {
      TokensCommaFree(s[c + 1..]);
    } else {
      assert s[..c] == s;
    }
  }

  lemma {:induction false} JoinSplit(s: string)
    ensures Join(Split(s)) == s
    decreases |s|
  {
    var c := FirstComma(s);
    if c == |s| {
    } else {
      JoinSplit(s[c + 1..]);
      JoinFirst(s[..c], Split(s[c + 1..]));
      AroundComma(s, c);
    }
  }

  lemma AroundComma(s: string, c: nat)
    requires c < |s| && s[c] == ','
    ensures s[..c] + ("," + s[c + 1..]) == s
  {
  }

  lemma JoinFirst(t: string, ts: seq<string>)
    requires ts != []
    ensures Join([t] + ts) == t + ("," + Join(ts))
  {
    assert ([t] + ts)[1..] == ts;
  }

  lemma {:induction false} FirstCommaAt(t: string, rest: string)
    requires ',' !in t
    ensures FirstComma(t + ("," + rest)) == |t| && FirstComma(t) == |t|
  {
    if t == [] {
    } else {
      FirstCommaAt(t[1..], rest);
      assert (t + ("," + rest))[1..] == t[1..] + ("," + rest);
    }
  }

  /** Splitting undoes joining comma-free tokens. */
  lemma {:induction false} SplitJoin(ts: seq<string>)
    requires ts != [] && CommaFree(ts)
    ensures Split(Join(ts)) == ts
  {
    if |ts| == 1 {
      FirstCommaAt(ts[0], "");
      assert ts == [ts[0]];
    } else {
      SplitJoin(ts[1..]);
      SplitFirst(ts[0], Join(ts[1..]));
      assert ts == [ts[0]] + ts[1..];
    }
  }

  lemma SplitFirst(t: string, rest: string)
    requires ',' !in t
    ensures Split(t + ("," + rest)) == [t] + Split(rest)
  {
    FirstCommaAt(t, rest);
    var s := t + ("," + rest);
    assert s[..|t|] == t && s[|t| + 1..] == rest;
  }

  /** The values of all tokens, or the error of the first bad one. */
  function ParseTokens(ts: seq<string>, token: string -> Result<int>): Result<seq<int>> {
    if ts == [] then Ok([])
    else match token(ts[0])
      case Err(e) => Err(e)
      case Ok(v) => Cons(v, ParseTokens(ts[1..], token))
  }

  function Cons(v: int, r: Result<seq<int>>): Result<seq<int>> {
    if r.Ok? then Ok([v] + r.value) else r
  }

  function Prefixed(vs: seq<int>, r: Result<seq<int>>): Result<seq<int>> {
    if r.Ok? then Ok(vs + r.value) else r
  }

  /** A list is accepted exactly when every token is, and then gives one value per token, in order. */
  lemma {:induction false} ListLanguage(ts: seq<string>, token: string -> Result<int>, vs: seq<int>)
    ensures ParseTokens(ts, token) == Ok(vs) <==>
      |vs| == |ts| && forall i :: 0 <= i < |ts| ==> token(ts[i]) == Ok(vs[i])
  {
    if ts == [] {
    } else {
      if |vs| > 0 {
        ListLanguage(ts[1..], token, vs[1..]);
        HeadAndTail(ts, token, vs);
      }
    }
  }

  lemma HeadAndTail(ts: seq<string>, token: string -> Result<int>, vs: seq<int>)
    requires ts != [] && vs != []
    ensures ParseTokens(ts, token) == Ok(vs) <==>
      token(ts[0]) == Ok(vs[0]) && ParseTokens(ts[1..], token) == Ok(vs[1..])
  {
    assert vs == [vs[0]] + vs[1..];
    var r := ParseTokens(ts[1..], token);
    if token(ts[0]).Ok? && r.Ok? {
      assert ([token(ts[0]).value] + r.value)[1..] == r.value;
    }
  }

  ghost predicate Denotes(ts: seq<string>, csv: string, token: string -> Result<int>, vs: seq<int>) {
    && ts != [] && CommaFree(ts) && Join(ts) == csv
    && |ts| == |vs| && forall i :: 0 <= i < |ts| ==> token(ts[i]) == Ok(vs[i])
  }

  /** The accepted list texts are exactly the comma-joined accepted tokens. */
  lemma CsvLanguage(csv: string, token: string -> Result<int>, vs: seq<int>)
    ensures ParseTokens(Split(csv), token) == Ok(vs) <==> exists ts :: Denotes(ts, csv, token, vs)
  {
    if ParseTokens(Split(csv), token) == Ok(vs) {
      TokensCommaFree(csv);
      JoinSplit(csv);
      ListLanguage(Split(csv), token, vs);
      assert Denotes(Split(csv), csv, token, vs);
    }
    if exists ts :: Denotes(ts, csv, token, vs) {
      var ts :| Denotes(ts, csv, token, vs);
      SplitJoin(ts);
      ListLanguage(ts, token, vs);
    }
  }

  function GpuToken(t: string): Result<int> {
    if t == [] then Err(EmptyToken)
    else match ParseInt(t)
      case Err(e) => Err(e)
      case Ok(n) => if n < 0 then Err(NegativeGpu) else Ok(n)
  }

  function U64Token(t: string): Result<int> {
    if t == [] then Err(EmptyToken) else ParseU64(t)
  }

  lemma Slices(s: string, start: nat, end: nat)
    requires start <= end <= |s|
    ensures s[start..][..end - start] == s[start..end]
    ensures end < |s| ==> s[start..][end - start + 1..] == s[end + 1..]
  {
  }

  lemma ParseOneMore(t: string, ts: seq<string>, token: string -> Result<int>)
    ensures ParseTokens([t] + ts, token) ==
      if token(t).Ok? then Cons(token(t).value, ParseTokens(ts, token)) else Err(token(t).error)
  {
    assert ([t] + ts)[1..] == ts;
  }

  lemma PrefixMore(vs: seq<int>, v: int, r: Result<seq<int>>)
    ensures Prefixed(vs, Cons(v, r)) == Prefixed(vs + [v], r)
    ensures Prefixed(vs, Cons(v, Ok([]))) == Ok(vs + [v])
    ensures Prefixed([], r) == r
  {
    assert vs + ([v] + []) == vs + [v];
    if r.Ok? {
      assert vs + ([v] + r.value) == (vs + [v]) + r.value;
      assert [] + r.value == r.value;
    }
  }

  /** One turn of the loop, seen from the remaining text. */
  lemma SplitStep(s: string, token: string -> Result<int>, vs: seq<int>)
    ensures Prefixed(vs, ParseTokens(Split(s), token)) == AfterToken(s, token(s[..FirstComma(s)]), token, vs)
  {
    var c := FirstComma(s);
    var rest := SplitRest(s);
    ParseOneMore(s[..c], rest, token);
    if token(s[..c]).Ok? { PrefixMore(vs, token(s[..c]).value, ParseTokens(rest, token)); }
  }

  lemma SplitRest(s: string) returns (rest: seq<string>)
    ensures Split(s) == [s[..FirstComma(s)]] + rest
    ensures rest == if FirstComma(s) == |s| then [] else Split(s[FirstComma(s) + 1..])
  {
    var c := FirstComma(s);
    if c == |s| {
      rest := [];
      assert s[..c] == s;
    } else {
      rest := Split(s[c + 1..]);
    }
  }

  function AfterToken(s: string, first: Result<int>, token: string -> Result<int>, vs: seq<int>): Result<seq<int>> {
    match first
    case Err(e) => Err(e)
    case Ok(v) =>
      if FirstComma(s) == |s| then Ok(vs + [v])
      else Prefixed(vs + [v], ParseTokens(Split(s[FirstComma(s) + 1..]), token))
  }

  /** The position of the next comma from `start` on, or the length. */
  function NextComma(csv: string, start: nat): (end: nat)
    requires start <= |csv|
    ensures start <= end <= |csv|
  {
    start + FirstComma(csv[start..])
  }

  /** One turn of the loop. */
  lemma Turn(csv: string, start: nat, end: nat, token: string -> Result<int>, vs: seq<int>)
    requires start <= |csv| && end == NextComma(csv, start)
    ensures var r, whole := token(csv[start..end]), Prefixed(vs, ParseTokens(Split(csv[start..]), token));
      && (r.Err? ==> whole == Err(r.error))
      && (r.Ok? && end == |csv| ==> whole == Ok(vs + [r.value]))
      && (r.Ok? && end < |csv| ==> whole == Prefixed(vs + [r.value], ParseTokens(Split(csv[end + 1..]), token)))
  {
    SplitStep(csv[start..], token, vs);
    Slices(csv, start, end);
  }

  /** The loop of parse_gpu_csv and parse_u64_csv over comma positions. */
  method ParseCsv(csv: string, token: string -> Result<int>) returns (r: Result<seq<int>>)
    ensures r == ParseTokens(Split(csv), token)
  {
    var values := [];
    var start := 0;
    assert csv[0..] == csv;
    PrefixMore([], 0, ParseTokens(Split(csv), token));
    while start <= |csv|
      invariant 0 <= start <= |csv|
      invariant ParseTokens(Split(csv), token) == Prefixed(values, ParseTokens(Split(csv[start..]), token))
      decreases |csv| - start
    {
      var end := NextComma(csv, start);
      Turn(csv, start, end, token, values);
      var r := token(csv[start..end]);
      if r.Err? { return Err(r.error); }
      values := values + [r.value];
      if end == |csv| {
        break;
      }
      start := end + 1;
    }
    r := Ok(values);
  }

  method ParseGpuCsv(csv: string) returns (r: Result<seq<int>>)
    ensures r == ParseTokens(Split(csv), GpuToken)
  {
    r := ParseCsv(csv, GpuToken);
  }

  method ParseU64Csv(csv: string) returns (r: Result<seq<int>>)
    ensures r == ParseTokens(Split(csv), U64Token)
  {
    r := ParseCsv(csv, U64Token);
  }

  // ----- the accepted tokens, and the way back from values to text

  lemma TokenLanguage(t: string, n: int)
    ensures GpuToken(t) == Ok(n) <==> IsInteger(t) && IntegerValue(t) == n && 0 <= n <= 0x7fff_ffff
    ensures U64Token(t) == Ok(n) <==> t != [] && AllDigits(t) && Value(t) == n && 1 <= n <= 0xffff_ffff_ffff_ffff
  {
    ParseIntLanguage(t, n);
    ParseU64Language(t, n);
    if GpuToken(t).Ok? { ParseIntLanguage(t, GpuToken(t).value); }
  }

  /** Token i is the first bad one, and e is its error. */
  predicate FirstBad(ts: seq<string>, token: string -> Result<int>, e: Error, i: nat) {
    i < |ts| && token(ts[i]) == Err(e) && forall j :: 0 <= j < i ==> token(ts[j]).Ok?
  }

  /** A list is refused with the error of its first bad token. */
  lemma {:induction false} ListErrors(ts: seq<string>, token: string -> Result<int>, e: Error)
    ensures ParseTokens(ts, token) == Err(e) <==> exists i: nat :: FirstBad(ts, token, e, i)
  {
    if ts == [] {
    } else {
      ListErrors(ts[1..], token, e);
      if FirstBad(ts, token, e, 0) {
      } else if token(ts[0]).Ok? {
        if exists i: nat :: FirstBad(ts, token, e, i) {
          var i: nat :| FirstBad(ts, token, e, i);
          assert forall j :: 0 <= j < i - 1 ==> ts[1..][j] == ts[j + 1];
          assert FirstBad(ts[1..], token, e, i - 1);
        }
        if exists i: nat :: FirstBad(ts[1..], token, e, i) {
          var i: nat :| FirstBad(ts[1..], token, e, i);
          assert forall j :: 0 < j <= i ==> ts[j] == ts[1..][j - 1];
          assert FirstBad(ts, token, e, i + 1);
        }
      }
    }
  }

  /** Which tokens are refused, and why. */
  lemma TokenErrors(t: string)
    ensures GpuToken(t) == Err(EmptyToken) <==> t == ""
    ensures GpuToken(t) == Err(NegativeGpu) <==> IsInteger(t) && -0x8000_0000 <= IntegerValue(t) < 0
    ensures GpuToken(t) == Err(InvalidInteger) <==>
      t != "" && !(IsInteger(t) && -0x8000_0000 <= IntegerValue(t) <= 0x7fff_ffff)
    ensures U64Token(t) == Err(EmptyToken) <==> t == ""
    ensures U64Token(t) == Err(InvalidPositive) <==>
      t != "" && !(AllDigits(t) && 1 <= Value(t) <= 0xffff_ffff_ffff_ffff)
  {
    if IsInteger(t) { ParseIntLanguage(t, IntegerValue(t)); }
    if ParseInt(t).Ok? { ParseIntLanguage(t, ParseInt(t).value); }
    if AllDigits(t) { ParseU64Language(t, Value(t)); }
    if ParseU64(t).Ok? { ParseU64Language(t, ParseU64(t).value); }
  }

  lemma DigitsParse(n: nat)
    ensures n <= INT_MAX ==> ParseInt(Digits(n)) == Ok(n) && GpuToken(Digits(n)) == Ok(n)
    ensures 1 <= n <= U64_MAX ==> U64Token(Digits(n)) == Ok(n) && ParseU64(Digits(n)) == Ok(n)
    ensures ',' !in Digits(n)
  {
    ValueOfDigits(n);
    assert IsDigit(Digits(n)[0]);
    ParseIntLanguage(Digits(n), n);
    TokenLanguage(Digits(n), n);
    ParseU64Language(Digits(n), n);
  }

  function Rendered(vs: seq<nat>): (ts: seq<string>)
    ensures |ts| == |vs| && forall i :: 0 <= i < |vs| ==> ts[i] == Digits(vs[i])
  {
    seq(|vs|, i requires 0 <= i < |vs| => Digits(vs[i]))
  }

  /** Rendering a non-empty list of valid values and parsing it gives the list back. */
  lemma ListRoundTrip(vs: seq<nat>)
    requires vs != []
    ensures (forall i :: 0 <= i < |vs| ==> vs[i] <= INT_MAX) ==>
      ParseTokens(Split(Join(Rendered(vs))), GpuToken) == Ok(vs)
    ensures (forall i :: 0 <= i < |vs| ==> 1 <= vs[i] <= U64_MAX) ==>
      ParseTokens(Split(Join(Rendered(vs))), U64Token) == Ok(vs)
  {
    var ts := Rendered(vs);
    forall i | 0 <= i < |vs|
      ensures ',' !in ts[i]
      ensures vs[i] <= INT_MAX ==> GpuToken(ts[i]) == Ok(vs[i])
      ensures 1 <= vs[i] <= U64_MAX ==> U64Token(ts[i]) == Ok(vs[i])
    {
      DigitsParse(vs[i]);
    }
    SplitJoin(ts);
    ListLanguage(ts, GpuToken, vs);
    ListLanguage(ts, U64Token, vs);
  }
}
