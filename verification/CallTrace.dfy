/**
 * Call traces: parsing the tracer's JSON into a call tree, flattening the tree to a pre-order
 * list with depths, and reading the tree back from the depths alone.
 */
module CallTrace {
  import opened Options

  datatype Result<+T> = Ok(value: T) | Err(message: string)

  datatype Json =
    | JNull
    | JBool(b: bool)
    | JNumber(n: int)
    | JString(s: string)
    | JArray(items: seq<Json>)
    | JObject(fields: map<string, Json>)

  type U64 = n: nat | n <= U64_MAX

  datatype CallFrame = CallFrame(
    callType: string,
    from: string,
    to: Option<string>,
    value: Option<string>,
    gasUsed: U64,
    input: Option<string>,
    output: Option<string>,
    error: Option<string>,
    calls: seq<CallFrame>)

  datatype FlatFrame = FlatFrame(
    depth: int,
    callType: string,
    from: string,
    to: Option<string>,
    value: string,
    gasUsed: int,
    input: Option<string>,
    output: Option<string>,
    error: Option<string>)

  const ZERO_ADDRESS: string := "0x0000000000000000000000000000000000000000"
  const U128_MAX: nat := 0xFFFF_FFFF_FFFF_FFFF_FFFF_FFFF_FFFF_FFFF

  // ------------------------------------------------------------------- numbers

  function HexDigit(c: char): Option<nat> {
    if '0' <= c <= '9' then Some(c as nat - '0' as nat)
    else if 'a' <= c <= 'f' then Some(c as nat - 'a' as nat + 10)
    else if 'A' <= c <= 'F' then Some(c as nat - 'A' as nat + 10)
    else None
  }

  /** The value of a string of hex digits; zero for the empty one. */
  function HexValue(s: string): Option<nat> {
    if s == [] then Some(0)
    else
      match (HexValue(s[..|s| - 1]), HexDigit(s[|s| - 1]))
      case (Some(high), Some(low)) => Some(16 * high + low)
      case _ => None
  }

  /** from_str_radix(s, 16) of an unsigned type with the given maximum: one leading `+` is allowed. */
  function ParseHex(s: string, max: nat): Option<nat> {
    var digits := if s != [] && s[0] == '+' then s[1..] else s;
    if digits == [] then None
    else
      match HexValue(digits)
      case Some(n) => if n <= max then Some(n) else None
      case None => None
  }

  function StripHexPrefix(s: string): string {
    if |s| >= 2 && s[..2] == "0x" then s[2..] else s
  }

  function Digit(n: nat): (c: char)
    requires n < 16
    ensures HexDigit(c) == Some(n) && c != '+'
  {
    if n < 10 then ('0' as int + n) as char else ('a' as int + n - 10) as char
  }

  function ToHex(n: nat): (s: string)
    ensures s != [] && HexValue(s) == Some(n) && s[0] != '+'
  {
    if n < 16 then [Digit(n)] else ToHex(n / 16) + [Digit(n % 16)]
  }

  /** The number a decimal string denotes. */
  function DecimalNumber(s: string): nat
    requires forall i :: 0 <= i < |s| ==> '0' <= s[i] <= '9'
  {
    if s == [] then 0 else 10 * DecimalNumber(s[..|s| - 1]) + (s[|s| - 1] as nat - '0' as nat)
  }

  /** Decimal digits without a leading zero. */
  predicate IsDecimal(s: string) {
    s != [] && (s[0] == '0' ==> |s| == 1) && forall i :: 0 <= i < |s| ==> '0' <= s[i] <= '9'
  }

  function ToDecimal(n: nat): (s: string)
    ensures IsDecimal(s) && DecimalNumber(s) == n
  {
    if n < 10 then [('0' as int + n) as char] else ToDecimal(n / 10) + [('0' as int + n % 10) as char]
  }

  /** `as i64` of a u64. */
  function AsI64(n: U64): int {
    if n > 0x7FFF_FFFF_FFFF_FFFF then n - 0x1_0000_0000_0000_0000 else n
  }

  function LowerChar(c: char): char {
    if 'A' <= c <= 'Z' then (c as int - 'A' as int + 'a' as int) as char else c
  }

  function ToLower(s: string): (r: string)
    ensures |r| == |s|
    ensures forall i :: 0 <= i < |s| ==> r[i] as int == s[i] as int + if 'A' <= s[i] <= 'Z' then 32 else 0
  {
    seq(|s|, i requires 0 <= i < |s| => LowerChar(s[i]))
  }

  // ------------------------------------------------------------------- parsing

  function GetString(j: Json, key: string): Option<string> {
    if j.JObject? && key in j.fields && j.fields[key].JString? then Some(j.fields[key].s) else None
  }

  function Children(j: Json): (items: seq<Json>)
    ensures forall i :: 0 <= i < |items| ==> items[i] < j
  {
    if j.JObject? && "calls" in j.fields && j.fields["calls"].JArray? then j.fields["calls"].items else []
  }

  function GasOf(j: Json): U64 {
    match GetString(j, "gasUsed")
    case None => 0
    case Some(s) =>
      match ParseHex(StripHexPrefix(s), U64_MAX)
      case Some(n) => n
      case None => 0
  }

  function ParseCallFrame(j: Json): Result<CallFrame>
    decreases j, 0
  {
    match GetString(j, "type")
    case None => Err("missing 'type' field")
    case Some(callType) =>
      var from := match GetString(j, "from") case Some(s) => s case None => ZERO_ADDRESS;
      var to := match GetString(j, "to") case Some(s) => Some(ToLower(s)) case None => None;
      Ok(CallFrame(callType, ToLower(from), to, GetString(j, "value"), GasOf(j), GetString(j, "input"),
                   GetString(j, "output"), GetString(j, "error"), ParseChildren(j, Children(j))))
  }

  /** The children that parse, in order; the others are dropped. */
  function ParseChildren(ghost parent: Json, items: seq<Json>): seq<CallFrame>
    requires forall i :: 0 <= i < |items| ==> items[i] < parent
    decreases parent, 0, |items|
  {
    if items == [] then []
    else
      var rest := ParseChildren(parent, items[1..]);
      match ParseCallFrame(items[0])
      case Ok(f) => [f] + rest
      case Err(_) => rest
  }

  // ---------------------------------------------------------------- flattening

  function DecimalValue(value: Option<string>): string {
    match value
    case None => "0"
    case Some(v) =>
      match ParseHex(StripHexPrefix(v), U128_MAX)
      case Some(n) => ToDecimal(n)
      case None => "0"
  }

  /** A transferred value is kept exactly up to u128; a larger one is stored as zero. */
  lemma DecimalValueOfHex(n: nat)
    ensures DecimalValue(Some("0x" + ToHex(n))) == if n <= U128_MAX then ToDecimal(n) else "0"
  {
    var s := "0x" + ToHex(n);
    assert s[..2] == "0x" && s[2..] == ToHex(n);
  }

  function FlatOf(f: CallFrame, depth: int): (flat: FlatFrame)
    ensures flat.depth == depth && flat.error == f.error
  {
    FlatFrame(depth, f.callType, f.from, f.to, DecimalValue(f.value), AsI64(f.gasUsed), f.input, f.output, f.error)
  }

  function Flatten(f: CallFrame, depth: int): seq<FlatFrame>
    decreases f, 0
  {
    [FlatOf(f, depth)] + FlattenAll(f.calls, depth + 1)
  }

  function FlattenAll(fs: seq<CallFrame>, depth: int): seq<FlatFrame>
    decreases fs, 1
  {
    if fs == [] then [] else Flatten(fs[0], depth) + FlattenAll(fs[1..], depth)
  }

  lemma {:induction false} FlattenAllAppend(fs: seq<CallFrame>, f: CallFrame, depth: int)
    ensures FlattenAll(fs + [f], depth) == FlattenAll(fs, depth) + Flatten(f, depth)
    decreases |fs|
  {
    var gs := fs + [f];
    if fs == [] {
      assert gs[0] == f && gs[1..] == [];
    } else {
      FlattenAllAppend(fs[1..], f, depth);
      assert gs[0] == fs[0] && gs[1..] == fs[1..] + [f];
      hide Flatten;
      assert FlattenAll(gs, depth) == Flatten(fs[0], depth) + FlattenAll(gs[1..], depth);
      assert FlattenAll(fs, depth) == Flatten(fs[0], depth) + FlattenAll(fs[1..], depth);
    }
  }

  /** Push the frame, then flatten its children one after the other onto the same list. */
  method FlattenCallFrame(frame: CallFrame, depth: int, out: seq<FlatFrame>) returns (result: seq<FlatFrame>)
    ensures result == out + Flatten(frame, depth)
    decreases frame
  {
    result := out + [FlatOf(frame, depth)];
    for i := 0 to |frame.calls|
      invariant result == out + [FlatOf(frame, depth)] + FlattenAll(frame.calls[..i], depth + 1)
    {
      assert frame.calls[..i + 1] == frame.calls[..i] + [frame.calls[i]];
      FlattenAllAppend(frame.calls[..i], frame.calls[i], depth + 1);
      result := FlattenCallFrame(frame.calls[i], depth + 1, result);
    }
    assert frame.calls[..|frame.calls|] == frame.calls;
  }

  /** The flattened trace of a JSON response. */
  method ParseTrace(trace: Json) returns (r: Result<seq<FlatFrame>>)
    ensures r == TraceOf(trace)
  {
    match ParseCallFrame(trace)
    case Err(message) => r := Err(message);
    case Ok(root) =>
      var frames := FlattenCallFrame(root, 0, []);
      assert [] + Flatten(root, 0) == Flatten(root, 0);
      r := Ok(frames);
  }

  function TraceOf(trace: Json): Result<seq<FlatFrame>> {
    match ParseCallFrame(trace)
    case Ok(root) => Ok(Flatten(root, 0))
    case Err(message) => Err(message)
  }

  // ------------------------------------------------------ the tree from the depths

  datatype FlatTree = Node(frame: FlatFrame, calls: seq<FlatTree>)

  /** The call tree with the payload the flat list carries. */
  function TreeOf(f: CallFrame, depth: int): FlatTree
    decreases f, 0
  {
    Node(FlatOf(f, depth), TreesOf(f.calls, depth + 1))
  }

  function TreesOf(fs: seq<CallFrame>, depth: int): seq<FlatTree>
    decreases fs, 1
  {
    if fs == [] then [] else [TreeOf(fs[0], depth)] + TreesOf(fs[1..], depth)
  }

  /** How many leading frames lie strictly below `depth`. */
  function DeeperRun(flat: seq<FlatFrame>, depth: int): (n: nat)
    ensures n <= |flat|
    ensures forall i :: 0 <= i < n ==> flat[i].depth > depth
    ensures n < |flat| ==> flat[n].depth <= depth
  {
    if flat == [] || flat[0].depth <= depth then 0 else 1 + DeeperRun(flat[1..], depth)
  }

  /** Read a forest back: a frame's subtree is the run of deeper frames after it. */
  function Rebuild(flat: seq<FlatFrame>): seq<FlatTree>
    decreases |flat|
  {
    if flat == [] then []
    else
      var n := 1 + DeeperRun(flat[1..], flat[0].depth);
      [Node(flat[0], Rebuild(flat[1..n]))] + Rebuild(flat[n..])
  }

  ghost predicate AtLeast(flat: seq<FlatFrame>, depth: int) {
    forall i :: 0 <= i < |flat| ==> flat[i].depth >= depth
  }

  lemma {:induction false} FlattenIsDeeper(fs: seq<CallFrame>, depth: int)
    ensures AtLeast(FlattenAll(fs, depth), depth)
    ensures fs != [] ==> FlattenAll(fs, depth) != [] && FlattenAll(fs, depth)[0] == FlatOf(fs[0], depth)
    decreases fs
  {
    if fs != [] {
      FlattenIsDeeper(fs[0].calls, depth + 1);
      FlattenIsDeeper(fs[1..], depth);
      assert FlattenAll(fs, depth) == [FlatOf(fs[0], depth)] + FlattenAll(fs[0].calls, depth + 1)
          + FlattenAll(fs[1..], depth);
    }
  }

  lemma DeeperRunSplits(a: seq<FlatFrame>, b: seq<FlatFrame>, depth: int)
    requires AtLeast(a, depth + 1) && (b != [] ==> b[0].depth <= depth)
    ensures DeeperRun(a + b, depth) == |a|
  {
    var s := a + b;
    assert forall i :: 0 <= i < |a| ==> s[i] == a[i];
    assert b != [] ==> s[|a|] == b[0];
  }

  lemma RebuildSplits(head: FlatFrame, below: seq<FlatFrame>, rest: seq<FlatFrame>)
    requires AtLeast(below, head.depth + 1) && (rest != [] ==> rest[0].depth <= head.depth)
    ensures Rebuild([head] + below + rest) == [Node(head, Rebuild(below))] + Rebuild(rest)
  {
    var flat := [head] + below + rest;
    assert flat[1..] == below + rest;
    DeeperRunSplits(below, rest, head.depth);
    assert flat[1..1 + |below|] == below && flat[1 + |below|..] == rest;
  }

  /** The depths determine the tree: rebuilding a flattened forest gives the forest back. */
  lemma {:induction false} RebuildInvertsFlatten(fs: seq<CallFrame>, depth: int)
    ensures Rebuild(FlattenAll(fs, depth)) == TreesOf(fs, depth)
    decreases fs
  {
    if fs != [] {
      var below := FlattenAll(fs[0].calls, depth + 1);
      var rest := FlattenAll(fs[1..], depth);
      FlattenIsDeeper(fs[0].calls, depth + 1);
      FlattenIsDeeper(fs[1..], depth);
      assert FlattenAll(fs, depth) == [FlatOf(fs[0], depth)] + below + rest;
      hide Rebuild, FlatOf;
      RebuildSplits(FlatOf(fs[0], depth), below, rest);
      RebuildInvertsFlatten(fs[0].calls, depth + 1);
      RebuildInvertsFlatten(fs[1..], depth);
    }
  }

  lemma RebuildInvertsFlattenOne(f: CallFrame, depth: int)
    ensures Rebuild(Flatten(f, depth)) == [TreeOf(f, depth)]
  {
    hide Rebuild, FlatOf;
    RebuildInvertsFlatten([f], depth);
    assert [f][1..] == [];
    assert FlattenAll([f], depth) == Flatten(f, depth) + FlattenAll([], depth) == Flatten(f, depth);
    assert TreesOf([f], depth) == [TreeOf(f, depth)] + TreesOf([], depth) == [TreeOf(f, depth)];
  }

  // ------------------------------------------------- the tree against the call tree

  /** The text is a hex number: digits, with or without `+`, with or without `0x` before them. */
  ghost predicate Denotes(text: string, n: nat) {
    exists digits, sign, prefix :: text == prefix + sign + digits && Number(digits, sign, prefix, n)
  }

  predicate Number(digits: string, sign: string, prefix: string, n: nat) {
    digits != "" && HexValue(digits) == Some(n) && sign in {"", "+"} && prefix in {"", "0x"}
  }

  /** The stored value is the number the hex text denotes; what denotes none up to u128 is stored as zero. */
  ghost predicate KeepsValue(stored: string, value: Option<string>) {
    && IsDecimal(stored)
    && (value.Some? ==> forall n: nat :: n <= U128_MAX && Denotes(value.value, n) ==> DecimalNumber(stored) == n)
    && (DecimalNumber(stored) != 0 ==> value.Some? && Denotes(value.value, DecimalNumber(stored)))
  }

  lemma {:induction false} HexValueHasDigits(s: string)
    requires HexValue(s).Some?
    ensures forall i :: 0 <= i < |s| ==> HexDigit(s[i]).Some?
    decreases |s|
  {
    if s != [] {
      HexValueHasDigits(s[..|s| - 1]);
    }
  }

  /** Parsing finds exactly the number the text denotes, if it is not too large. */
  lemma ParseHexIff(text: string, max: nat, n: nat)
    ensures ParseHex(StripHexPrefix(text), max) == Some(n) <==> n <= max && Denotes(text, n)
  {
    hide HexValue, Number;
    if ParseHex(StripHexPrefix(text), max) == Some(n) {
      ParsedIsDenoted(text, max, n);
    }
    if Denotes(text, n) {
      var digits, sign, prefix :| text == prefix + sign + digits && Number(digits, sign, prefix, n);
      ParseOfNumber(digits, sign, prefix, max, n);
    }
  }

  lemma ParsedIsDenoted(text: string, max: nat, n: nat)
    requires ParseHex(StripHexPrefix(text), max) == Some(n)
    ensures n <= max && Denotes(text, n)
  {
    hide HexValue;
    var rest := StripHexPrefix(text);
    var prefix := if rest == text then "" else "0x";
    var sign := if rest[0] == '+' then "+" else "";
    var digits := rest[|sign|..];
    assert text == prefix + rest && rest == sign + digits;
    assert text == prefix + sign + digits && Number(digits, sign, prefix, n);
  }

  lemma ParseOfNumber(digits: string, sign: string, prefix: string, max: nat, n: nat)
    requires Number(digits, sign, prefix, n)
    ensures ParseHex(StripHexPrefix(prefix + sign + digits), max) == if n <= max then Some(n) else None
  {
    HexValueHasDigits(digits);
    hide HexValue;
    var rest := StripHexPrefix(prefix + sign + digits);
    StripOfNumber(digits, sign, prefix);
    if sign == "+" {
      assert rest[0] == '+' && rest[1..] == digits;
    } else {
      assert rest == digits && HexDigit(rest[0]).Some?;
    }
  }

  lemma StripOfNumber(digits: string, sign: string, prefix: string)
    requires digits != "" && sign in {"", "+"} && prefix in {"", "0x"}
    requires forall i :: 0 <= i < |digits| ==> HexDigit(digits[i]).Some?
    ensures StripHexPrefix(prefix + sign + digits) == sign + digits
  {
    var text := prefix + sign + digits;
    if prefix == "0x" {
      assert text[..2] == "0x" && text[2..] == sign + digits;
    } else {
      assert text == sign + digits;
      if |text| >= 2 {
        assert text[1] == if sign == "" then digits[1] else digits[0];
        assert text[..2][1] == text[1] != 'x';
      }
    }
  }

  lemma ValueIsKept(value: Option<string>)
    ensures KeepsValue(DecimalValue(value), value)
  {
    hide Denotes, StripHexPrefix, ParseHex;
    assert DecimalNumber("0") == 0 by { assert "0"[..0] == []; }
    if value.Some? {
      forall n: nat | n <= U128_MAX && Denotes(value.value, n) ensures DecimalNumber(DecimalValue(value)) == n {
        ParseHexIff(value.value, U128_MAX, n);
      }
      match ParseHex(StripHexPrefix(value.value), U128_MAX)
      case Some(n) => ParseHexIff(value.value, U128_MAX, n);
      case None =>
    }
  }

  lemma GasMeaning(j: Json, n: U64)
    ensures GasOf(j) == n <==>
            || (GetString(j, "gasUsed").Some? && Denotes(GetString(j, "gasUsed").value, n))
            || (n == 0 && (GetString(j, "gasUsed").Some? ==>
                             forall m: U64 :: !Denotes(GetString(j, "gasUsed").value, m)))
  {
    if GetString(j, "gasUsed").Some? {
      var s := GetString(j, "gasUsed").value;
      forall m: U64 ensures ParseHex(StripHexPrefix(s), U64_MAX) == Some(m) <==> Denotes(s, m) {
        ParseHexIff(s, U64_MAX, m);
      }
    }
  }

  /** The stored gas is the gas below 2^63; above, it is the same 64 bits read as a signed number. */
  predicate KeepsGas(stored: int, gas: U64) {
    && -0x8000_0000_0000_0000 <= stored <= 0x7FFF_FFFF_FFFF_FFFF
    && (gas <= 0x7FFF_FFFF_FFFF_FFFF ==> stored == gas)
    && (gas > 0x7FFF_FFFF_FFFF_FFFF ==> stored + 0x1_0000_0000_0000_0000 == gas)
  }

  /** Column by column, at every node: the stored tree says what the call tree says. */
  ghost predicate Carries(t: FlatTree, f: CallFrame, depth: int)
    decreases t
  {
    && t.frame.depth == depth && t.frame.callType == f.callType
    && t.frame.from == f.from && t.frame.to == f.to
    && t.frame.input == f.input && t.frame.output == f.output && t.frame.error == f.error
    && KeepsValue(t.frame.value, f.value) && KeepsGas(t.frame.gasUsed, f.gasUsed)
    && |t.calls| == |f.calls| && forall i :: 0 <= i < |t.calls| ==> Carries(t.calls[i], f.calls[i], depth + 1)
  }

  lemma {:induction false} TreeCarries(f: CallFrame, depth: int)
    ensures Carries(TreeOf(f, depth), f, depth)
    decreases f, 0
  {
    hide KeepsValue, DecimalValue;
    ValueIsKept(f.value);
    TreesCarry(f.calls, depth + 1);
  }

  lemma {:induction false} TreesCarry(fs: seq<CallFrame>, depth: int)
    ensures |TreesOf(fs, depth)| == |fs|
    ensures forall i :: 0 <= i < |fs| ==> Carries(TreesOf(fs, depth)[i], fs[i], depth)
    decreases fs, 1
  {
    hide Carries, TreeOf;
    if fs != [] {
      TreeCarries(fs[0], depth);
      TreesCarry(fs[1..], depth);
    }
  }

  /** The flat list of a call tree, read back from its depths, says what the call tree says. */
  lemma FlattenCarries(f: CallFrame, depth: int)
    ensures exists t :: Rebuild(Flatten(f, depth)) == [t] && Carries(t, f, depth)
  {
    hide Rebuild, Flatten, Carries, TreeOf;
    RebuildInvertsFlattenOne(f, depth);
    TreeCarries(f, depth);
  }

  // ----------------------------------------------------- printing and round trip

  function WithOptional(fields: map<string, Json>, key: string, value: Option<string>): (r: map<string, Json>)
    ensures forall q :: q != key ==> (q in r <==> q in fields) && (q in r ==> r[q] == fields[q])
    ensures value.None? ==> r == fields
    ensures value.Some? ==> key in r && r[key] == JString(value.value)
  {
    if value.None? then fields else fields[key := JString(value.value)]
  }

  function RequiredFields(f: CallFrame, calls: seq<Json>): map<string, Json> {
    map["type" := JString(f.callType), "from" := JString(f.from), "gasUsed" := JString("0x" + ToHex(f.gasUsed)),
        "calls" := JArray(calls)]
  }

  /** The tracer's JSON of a call tree. */
  function Print(f: CallFrame): Json
    decreases f, 0
  {
    PrintWith(f, PrintAll(f.calls))
  }

  function PrintWith(f: CallFrame, calls: seq<Json>): Json {
    var withTo := WithOptional(RequiredFields(f, calls), "to", f.to);
    var withValue := WithOptional(withTo, "value", f.value);
    var withInput := WithOptional(withValue, "input", f.input);
    var withOutput := WithOptional(withInput, "output", f.output);
    JObject(WithOptional(withOutput, "error", f.error))
  }

  function PrintAll(fs: seq<CallFrame>): (js: seq<Json>)
    ensures |js| == |fs|
    decreases fs, 1
  {
    if fs == [] then [] else [Print(fs[0])] + PrintAll(fs[1..])
  }

  /** The same tree with its addresses in lower case. */
  function Lowered(f: CallFrame): CallFrame
    decreases f, 0
  {
    var to := if f.to.Some? then Some(ToLower(f.to.value)) else None;
    f.(from := ToLower(f.from), to := to, calls := LoweredAll(f.calls))
  }

  function LoweredAll(fs: seq<CallFrame>): (r: seq<CallFrame>)
    ensures |r| == |fs|
    decreases fs, 1
  {
    if fs == [] then [] else [Lowered(fs[0])] + LoweredAll(fs[1..])
  }

  lemma PrintedType(f: CallFrame)
    ensures GetString(Print(f), "type") == Some(f.callType)
  {
    hide WithOptional, ToHex;
  }

  lemma PrintedFrom(f: CallFrame)
    ensures GetString(Print(f), "from") == Some(f.from)
  {
    hide WithOptional, ToHex;
  }

  lemma PrintedError(f: CallFrame)
    ensures GetString(Print(f), "error") == f.error
  {
    hide WithOptional, ToHex;
  }

  lemma PrintedToAndValue(f: CallFrame)
    ensures GetString(Print(f), "to") == f.to && GetString(Print(f), "value") == f.value
  {
    hide WithOptional, ToHex;
  }

  lemma PrintedInputAndOutput(f: CallFrame)
    ensures GetString(Print(f), "input") == f.input && GetString(Print(f), "output") == f.output
  {
    hide WithOptional, ToHex;
  }

  lemma PrintedGasField(f: CallFrame)
    ensures GetString(Print(f), "gasUsed") == Some("0x" + ToHex(f.gasUsed))
  {
    hide WithOptional, ToHex;
  }

  lemma PrintedChildren(f: CallFrame)
    ensures Children(Print(f)) == PrintAll(f.calls)
  {
    hide WithOptional, ToHex;
  }

  lemma PrintedGas(f: CallFrame)
    ensures GasOf(Print(f)) == f.gasUsed
  {
    PrintedGasField(f);
    var s := "0x" + ToHex(f.gasUsed);
    assert s[..2] == "0x" && s[2..] == ToHex(f.gasUsed);
  }

  /** Every call tree is parsed back from its JSON, with its addresses lower-cased. */
  lemma {:induction false} ParseInvertsPrint(f: CallFrame)
    ensures ParseCallFrame(Print(f)) == Ok(Lowered(f))
    decreases f, 0
  {
    PrintedType(f);
    PrintedFrom(f);
    PrintedError(f);
    PrintedToAndValue(f);
    PrintedInputAndOutput(f);
    PrintedGas(f);
    PrintedChildren(f);
    hide Print, GasOf, ToLower;
    ParseInvertsPrintAll(Print(f), f.calls);
  }

  lemma {:induction false} ParseInvertsPrintAll(parent: Json, fs: seq<CallFrame>)
    requires forall i :: 0 <= i < |fs| ==> PrintAll(fs)[i] < parent
    ensures ParseChildren(parent, PrintAll(fs)) == LoweredAll(fs)
    decreases fs, 1
  {
    hide Print, ParseCallFrame, Lowered;
    if fs != [] {
      var js := PrintAll(fs);
      assert js[1..] == PrintAll(fs[1..]);
      ParseInvertsPrint(fs[0]);
      ParseInvertsPrintAll(parent, fs[1..]);
    }
  }

  /**
   * From the tracer's JSON of any call tree to the flat list, and back from its depths alone: one tree
   * with the same shape that says at every node what the call tree says.
   */
  lemma TraceRoundTrip(f: CallFrame)
    ensures TraceOf(Print(f)).Ok?
    ensures exists t :: Rebuild(TraceOf(Print(f)).value) == [t] && Carries(t, Lowered(f), 0)
  {
    hide Flatten, Rebuild, Carries, Print, ParseCallFrame, Lowered;
    ParseInvertsPrint(f);
    FlattenCarries(Lowered(f), 0);
  }

  // ------------------------------------------------------------- absent fields

  lemma {:induction false} ParentDoesNotMatter(a: Json, b: Json, items: seq<Json>)
    requires forall i :: 0 <= i < |items| ==> items[i] < a && items[i] < b
    ensures ParseChildren(a, items) == ParseChildren(b, items)
    decreases |items|
  {
    hide ParseCallFrame;
    if items != [] {
      ParentDoesNotMatter(a, b, items[1..]);
    }
  }

  predicate SameStrings(a: Json, b: Json) {
    && GetString(a, "type") == GetString(b, "type") && GetString(a, "to") == GetString(b, "to")
    && GetString(a, "value") == GetString(b, "value") && GetString(a, "input") == GetString(b, "input")
    && GetString(a, "output") == GetString(b, "output") && GetString(a, "error") == GetString(b, "error")
  }

  /** Two objects with the same children and the same strings parse alike. */
  lemma ParseReadsStrings(a: Json, b: Json)
    requires Children(a) == Children(b) && GasOf(a) == GasOf(b) && SameStrings(a, b)
    requires GetString(a, "from") == GetString(b, "from")
          || (GetString(a, "from").None?
              && GetString(b, "from") == Some("0x0000000000000000000000000000000000000000"))
    ensures ParseCallFrame(a) == ParseCallFrame(b)
  {
    hide GetString, Children, GasOf, ToLower;
    ParentDoesNotMatter(a, b, Children(a));
  }

  /** A call without a sender comes from the zero address. */
  lemma AbsentSender(fields: map<string, Json>)
    requires GetString(JObject(fields), "from").None?
    ensures ParseCallFrame(JObject(fields)) == ParseCallFrame(JObject(fields["from" := JString(ZERO_ADDRESS)]))
  {
    hide ParseCallFrame, ParseHex;
    ParseReadsStrings(JObject(fields), JObject(fields["from" := JString(ZERO_ADDRESS)]));
  }

  /** A call whose gas is absent, or no number up to u64, used none. */
  lemma AbsentGas(fields: map<string, Json>)
    requires var gas := GetString(JObject(fields), "gasUsed"); gas.Some? ==> forall n: U64 :: !Denotes(gas.value, n)
    ensures ParseCallFrame(JObject(fields)) == ParseCallFrame(JObject(fields["gasUsed" := JString("0x0")]))
  {
    hide ParseCallFrame, ParseHex, Denotes, HexValue;
    var a, b := JObject(fields), JObject(fields["gasUsed" := JString("0x0")]);
    assert Denotes("0x0", 0) by { ZeroIsDenoted(); }
    GasMeaning(a, 0);
    GasMeaning(b, 0);
    hide GasOf;
    ParseReadsStrings(a, b);
  }

  lemma ZeroIsDenoted()
    ensures Denotes("0x0", 0)
  {
    assert HexValue("0") == Some(0) by { assert "0"[..0] == []; }
    assert "0x0" == "0x" + "" + "0" && Number("0", "", "0x", 0);
  }

  /** Any other field that is not a string counts as absent. */
  lemma AbsentField(fields: map<string, Json>, key: string)
    requires GetString(JObject(fields), key).None? && key != "calls" && key != "from"
    ensures ParseCallFrame(JObject(fields)) == ParseCallFrame(JObject(fields - {key}))
  {
    hide ParseCallFrame, ParseHex;
    var a, b := JObject(fields), JObject(fields - {key});
    assert forall q :: GetString(a, q) == GetString(b, q);
    assert Children(a) == Children(b);
    assert GetString(a, "gasUsed") == GetString(b, "gasUsed");
    hide GetString, Children;
    ParseReadsStrings(a, b);
  }

  // --------------------------------------------------------- malformed children

  /** A node the parser accepts. */
  predicate WellFormedNode(j: Json) {
    GetString(j, "type").Some?
  }

  /** The same JSON without its malformed children, at every level. */
  function Prune(j: Json): Json
    decreases j, 0
  {
    if j.JObject? && "calls" in j.fields && j.fields["calls"].JArray?
    then JObject(j.fields["calls" := JArray(PruneAll(j, Children(j)))])
    else j
  }

  function PruneAll(ghost parent: Json, items: seq<Json>): seq<Json>
    requires forall i :: 0 <= i < |items| ==> items[i] < parent
    decreases parent, 0, |items|
  {
    if items == [] then []
    else (if WellFormedNode(items[0]) then [Prune(items[0])] else []) + PruneAll(parent, items[1..])
  }

  /** The number of call nodes of a JSON tree, malformed or not. */
  function NodeCount(j: Json): nat
    decreases j, 0
  {
    1 + NodeCountAll(j, Children(j))
  }

  function NodeCountAll(ghost parent: Json, items: seq<Json>): nat
    requires forall i :: 0 <= i < |items| ==> items[i] < parent
    decreases parent, 0, |items|
  {
    if items == [] then 0 else NodeCount(items[0]) + NodeCountAll(parent, items[1..])
  }

  lemma PruneKeepsFields(j: Json, key: string)
    requires key != "calls"
    ensures GetString(Prune(j), key) == GetString(j, key)
  {
  }

  /**
   * A malformed child is dropped with exactly its own subtree: parsing sees the pruned tree, keeps
   * every node of it, and fails only if the root itself is malformed.
   */
  lemma {:induction false} ParseIsParseOfPruned(j: Json)
    ensures ParseCallFrame(j).Ok? <==> WellFormedNode(j)
    ensures ParseCallFrame(Prune(j)) == ParseCallFrame(j)
    ensures WellFormedNode(j) ==> |Flatten(ParseCallFrame(j).value, 0)| == NodeCount(Prune(j))
    decreases j, 0
  {
    var p := Prune(j);
    PruneKeepsFields(j, "type");
    PruneKeepsFields(j, "from");
    PruneKeepsFields(j, "to");
    PruneKeepsFields(j, "value");
    PruneKeepsFields(j, "gasUsed");
    PruneKeepsFields(j, "input");
    PruneKeepsFields(j, "output");
    PruneKeepsFields(j, "error");
    assert Children(p) == PruneAll(j, Children(j));
    ParseChildrenOfPruned(j, p, Children(j));
    if WellFormedNode(j) {
      var f := ParseCallFrame(j).value;
      assert |Flatten(f, 0)| == 1 + |FlattenAll(f.calls, 1)|;
    }
  }

  lemma {:induction false} ParseChildrenOfPruned(j: Json, p: Json, items: seq<Json>)
    requires forall i :: 0 <= i < |items| ==> items[i] < j
    requires forall i :: 0 <= i < |PruneAll(j, items)| ==> PruneAll(j, items)[i] < p
    ensures ParseChildren(p, PruneAll(j, items)) == ParseChildren(j, items)
    ensures |FlattenAll(ParseChildren(j, items), 1)| == NodeCountAll(p, PruneAll(j, items))
    decreases j, 0, |items|
  {
    hide ParseCallFrame, Prune, NodeCount, Flatten;
    if items != [] {
      var rest := PruneAll(j, items[1..]);
      var all := PruneAll(j, items);
      if WellFormedNode(items[0]) {
        assert all == [Prune(items[0])] + rest && all[1..] == rest;
        forall i | 0 <= i < |rest| ensures rest[i] < p { assert rest[i] == all[i + 1]; }
        ParseIsParseOfPruned(items[0]);
        ParseChildrenOfPruned(j, p, items[1..]);
        DepthDoesNotMatter(ParseCallFrame(items[0]).value, 0, 1);
      } else {
        assert all == rest;
        ParseIsParseOfPruned(items[0]);
        ParseChildrenOfPruned(j, p, items[1..]);
      }
    }
  }

  lemma {:induction false} DepthDoesNotMatter(f: CallFrame, d: int, e: int)
    ensures |Flatten(f, d)| == |Flatten(f, e)|
    decreases f, 0
  {
    DepthDoesNotMatterAll(f.calls, d + 1, e + 1);
  }

  lemma {:induction false} DepthDoesNotMatterAll(fs: seq<CallFrame>, d: int, e: int)
    ensures |FlattenAll(fs, d)| == |FlattenAll(fs, e)|
    decreases fs, 1
  {
    if fs != [] {
      DepthDoesNotMatter(fs[0], d, e);
      DepthDoesNotMatterAll(fs[1..], d, e);
    }
  }
}
