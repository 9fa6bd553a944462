/**
 * Solidity signatures as text: taking the parameter list out of `name(types)` and splitting it
 * at its top-level commas.
 */
module TypeList {
  import opened Options

  // ------------------------------------------------------------------ trimming

  /** The Unicode White_Space characters. */
  predicate IsWhitespace(c: char) {
    || '\t' <= c <= '\r' || c == ' ' || c == '\U{0085}' || c == '\U{00A0}' || c == '\U{1680}'
    || '\U{2000}' <= c <= '\U{200A}' || c == '\U{2028}' || c == '\U{2029}' || c == '\U{202F}'
    || c == '\U{205F}' || c == '\U{3000}'
  }

  function TrimStart(s: string): string {
    if s != [] && IsWhitespace(s[0]) then TrimStart(s[1..]) else s
  }

  function TrimEnd(s: string): string {
    if s != [] && IsWhitespace(s[|s| - 1]) then TrimEnd(s[..|s| - 1]) else s
  }

  function Trim(s: string): string {
    TrimEnd(TrimStart(s))
  }

  function TrimAll(pieces: seq<string>): seq<string> {
    if pieces == [] then [] else [Trim(pieces[0])] + TrimAll(pieces[1..])
  }

  lemma {:induction false} TrimAllKeepsTrimmed(pieces: seq<string>)
    requires forall i :: 0 <= i < |pieces| ==> Trim(pieces[i]) == pieces[i]
    ensures TrimAll(pieces) == pieces
  {
    if pieces != [] { TrimAllKeepsTrimmed(pieces[1..]); }
  }

  ghost predicate Blank(s: string) {
    forall i :: 0 <= i < |s| ==> IsWhitespace(s[i])
  }

  /** Nonempty, and whitespace at neither end. */
  predicate Tight(s: string) {
    s != [] && !IsWhitespace(s[0]) && !IsWhitespace(s[|s| - 1])
  }

  /** Trimming removes exactly the padding around a text. */
  lemma {:induction false} TrimRemovesPadding(left: string, s: string, right: string)
    requires Blank(left) && Blank(right) && Tight(s)
    ensures Trim(left + s + right) == s
    decreases |left| + |right|
  {
    var t := left + s + right;
    if left != [] {
      assert t[0] == left[0] && t[1..] == left[1..] + s + right;
      TrimRemovesPadding(left[1..], s, right);
    } else {
      assert t == s + right && t[0] == s[0];
      if right != [] {
        var n := |right| - 1;
        assert t[|t| - 1] == right[n] && t[..|t| - 1] == left + s + right[..n];
        TrimRemovesPadding(left, s, right[..n]);
        assert (left + s + right[..n])[0] == s[0];
      } else {
        assert t == s;
      }
    }
  }

  // ------------------------------------------------------------------- nesting

  function Delta(c: char): int {
    if c == '(' then 1 else if c == ')' then -1 else 0
  }

  /** Opening minus closing parentheses. */
  function Depth(s: string): int {
    if s == [] then 0 else Depth(s[..|s| - 1]) + Delta(s[|s| - 1])
  }

  lemma {:induction false} DepthConcat(a: string, b: string)
    ensures Depth(a + b) == Depth(a) + Depth(b)
    decreases |b|
  {
    if b == [] {
      assert a + b == a;
    } else {
      var n := |b| - 1;
      DepthConcat(a, b[..n]);
      assert (a + b)[..|a + b| - 1] == a + b[..n] && (a + b)[|a + b| - 1] == b[n];
    }
  }

  /** A comma outside all parentheses. */
  predicate TopComma(s: string, i: nat) {
    i < |s| && s[i] == ',' && Depth(s[..i]) == 0
  }

  /** Text with no comma to split at. */
  ghost predicate Whole(s: string) {
    forall i: nat :: i < |s| ==> !TopComma(s, i)
  }

  lemma TopCommaInPrefix(a: string, b: string, i: nat)
    requires i < |a|
    ensures TopComma(a + b, i) <==> TopComma(a, i)
  {
    assert (a + b)[..i] == a[..i];
  }

  lemma TopCommaShift(s: string, start: nat, i: nat)
    requires start <= |s| && Depth(s[..start]) == 0
    ensures TopComma(s[start..], i) <==> TopComma(s, start + i)
  {
    if start + i < |s| {
      DepthConcat(s[..start], s[start..][..i]);
      assert s[..start] + s[start..][..i] == s[..start + i];
    }
  }

  function FirstTopComma(s: string, from: nat): (k: nat)
    requires from <= |s|
    ensures from <= k <= |s| && (k < |s| ==> TopComma(s, k))
    ensures forall i :: from <= i < k ==> !TopComma(s, i)
    decreases |s| - from
  {
    if from == |s| || TopComma(s, from) then from else FirstTopComma(s, from + 1)
  }

  lemma FirstTopCommaIs(s: string, k: nat)
    requires TopComma(s, k) && forall i: nat :: i < k ==> !TopComma(s, i)
    ensures FirstTopComma(s, 0) == k
  {
    var first: nat := FirstTopComma(s, 0);
    assert first < k ==> !TopComma(s, first);
  }

  // ------------------------------------------------------------------ splitting

  /** The text between top-level commas, untrimmed. */
  function RawPieces(s: string): seq<string>
    decreases |s|
  {
    var k := FirstTopComma(s, 0);
    if k == |s| then [s] else [s[..k]] + RawPieces(s[k + 1..])
  }

  function Split(s: string): seq<string> {
    if s == [] then [] else TrimAll(RawPieces(s))
  }

  ghost predicate NoTopComma(s: string, from: nat, end: nat) {
    forall i :: from <= i < end ==> !TopComma(s, i)
  }

  lemma OneMore(s: string, from: nat, i: nat)
    requires from <= i < |s| && NoTopComma(s, from, i)
    ensures Depth(s[..i + 1]) == Depth(s[..i]) + Delta(s[i])
    ensures TopComma(s, i) <==> s[i] == ',' && Depth(s[..i]) == 0
    ensures !TopComma(s, i) ==> NoTopComma(s, from, i + 1)
    ensures NoTopComma(s, i + 1, i + 1)
  {
    assert s[..i + 1][..i] == s[..i];
  }

  /** One pass over the text, counting parentheses and cutting at every comma outside them. */
  method SplitTopLevel(types: string) returns (out: seq<string>)
    ensures out == Split(types)
  {
    if types == "" {
      return [];
    }
    out := [];
    var depth, start := 0, 0;
    assert types[0..] == types && Depth(types[..0]) == 0 && NoTopComma(types, 0, 0);
    assert SplitUpTo(types, 0, []);
    hide RawPieces, Trim, Depth, TopComma, NoTopComma, SplitUpTo;
    for i := 0 to |types|
      invariant start <= i && depth == Depth(types[..i]) && Depth(types[..start]) == 0
      invariant NoTopComma(types, start, i)
      invariant SplitUpTo(types, start, out)
    {
      OneMore(types, start, i);
      match types[i]
      case '(' => depth := depth + 1;
      case ')' => depth := depth - 1;
      case _ =>
        if types[i] == ',' && depth == 0 {
          PieceFound(types, start, i, out);
          out := out + [Trim(types[start..i])];
          start := i + 1;
        }
    }
    LastPiece(types, start, out);
    out := out + [Trim(types[start..])];
  }

  /** `out` holds the trimmed pieces before `start`. */
  ghost predicate SplitUpTo(types: string, start: nat, out: seq<string>) {
    start <= |types| && TrimAll(RawPieces(types)) == out + TrimAll(RawPieces(types[start..]))
  }

  lemma NextPiece(types: string, start: nat, i: nat)
    requires start <= i && TopComma(types, i) && Depth(types[..start]) == 0
    requires NoTopComma(types, start, i)
    ensures i < |types| && RawPieces(types[start..]) == [types[start..i]] + RawPieces(types[i + 1..])
  {
    var rest := types[start..];
    hide Depth, TopComma;
    forall j: nat | j < i - start ensures !TopComma(rest, j) {
      TopCommaShift(types, start, j);
    }
    TopCommaShift(types, start, i - start);
    IndexOfTopComma(types, i);
    FirstTopCommaIs(rest, i - start);
    assert rest[..i - start] == types[start..i] && rest[i - start + 1..] == types[i + 1..];
  }

  lemma PieceFound(types: string, start: nat, i: nat, out: seq<string>)
    requires SplitUpTo(types, start, out)
    requires start <= i && TopComma(types, i) && Depth(types[..start]) == 0
    requires NoTopComma(types, start, i)
    ensures i < |types| && SplitUpTo(types, i + 1, out + [Trim(types[start..i])])
  {
    NextPiece(types, start, i);
    var piece, rest := types[start..i], RawPieces(types[i + 1..]);
    hide Depth, TopComma, NoTopComma, RawPieces, Trim;
    assert ([piece] + rest)[1..] == rest;
    assert TrimAll([piece] + rest) == [Trim(piece)] + TrimAll(rest);
    assert out + ([Trim(piece)] + TrimAll(rest)) == out + [Trim(piece)] + TrimAll(rest);
  }

  lemma IndexOfTopComma(s: string, i: nat)
    requires TopComma(s, i)
    ensures i < |s|
  {
  }

  lemma LastPiece(types: string, start: nat, out: seq<string>)
    requires SplitUpTo(types, start, out) && Depth(types[..start]) == 0
    requires NoTopComma(types, start, |types|)
    ensures TrimAll(RawPieces(types)) == out + [Trim(types[start..])]
  {
    forall j: nat | j < |types| - start ensures !TopComma(types[start..], j) {
      TopCommaShift(types, start, j);
    }
    hide Depth, TopComma, Trim;
    var last := types[start..];
    assert RawPieces(last) == [last];
    assert TrimAll([last]) == [Trim(last)] + TrimAll([]);
  }

  // -------------------------------------------------- splitting and joining are inverse

  function Join(pieces: seq<string>): string {
    if pieces == [] then ""
    else if |pieces| == 1 then pieces[0]
    else pieces[0] + "," + Join(pieces[1..])
  }

  /** Pieces a split can produce: no comma to split at inside one, and parentheses closed before each cut. */
  ghost predicate IsSplit(pieces: seq<string>) {
    && pieces != []
    && (forall i :: 0 <= i < |pieces| ==> Whole(pieces[i]))
    && (forall i :: 0 <= i < |pieces| - 1 ==> Depth(pieces[i]) == 0)
  }

  /** No text is lost: the untrimmed pieces, joined, are the input. */
  lemma {:induction false} JoinInvertsRawPieces(s: string)
    ensures Join(RawPieces(s)) == s
    decreases |s|
  {
    var k := FirstTopComma(s, 0);
    if k < |s| {
      JoinInvertsRawPieces(s[k + 1..]);
      assert RawPieces(s)[1..] == RawPieces(s[k + 1..]);
      assert s == s[..k] + "," + s[k + 1..];
    }
  }

  lemma {:induction false} RawPiecesIsSplit(s: string)
    ensures IsSplit(RawPieces(s))
    decreases |s|
  {
    var k := FirstTopComma(s, 0);
    if k < |s| {
      RawPiecesIsSplit(s[k + 1..]);
      assert Whole(s[..k]) by {
        forall i: nat | i < k ensures !TopComma(s[..k], i) {
          TopCommaInPrefix(s[..k], s[k..], i);
          assert s[..k] + s[k..] == s;
        }
      }
      var rest := RawPieces(s[k + 1..]);
      assert forall i :: 1 <= i < |RawPieces(s)| ==> RawPieces(s)[i] == rest[i - 1];
    }
  }

  lemma {:induction false} RawPiecesOfJoin(pieces: seq<string>)
    requires IsSplit(pieces)
    ensures RawPieces(Join(pieces)) == pieces
    decreases |pieces|
  {
    if |pieces| > 1 {
      var first, rest := pieces[0], Join(pieces[1..]);
      var s := first + "," + rest;
      assert s == first + ("," + rest) && s[..|first|] == first;
      forall i: nat | i < |first| ensures !TopComma(s, i) {
        TopCommaInPrefix(first, "," + rest, i);
      }
      assert TopComma(s, |first|);
      FirstTopCommaIs(s, |first|);
      assert s[|first| + 1..] == rest;
      RawPiecesOfJoin(pieces[1..]);
    }
  }

  /**
   * Splitting a joined list gives the list back if and only if no piece would itself be cut or leave a
   * parenthesis open.
   */
  lemma SplitInvertsJoinIff(pieces: seq<string>)
    ensures RawPieces(Join(pieces)) == pieces <==> IsSplit(pieces)
  {
    RawPiecesIsSplit(Join(pieces));
    if IsSplit(pieces) { RawPiecesOfJoin(pieces); }
  }

  lemma {:induction false} TrimShortens(s: string)
    ensures |Trim(s)| <= |s| && (|Trim(s)| == |s| ==> Trim(s) == s)
  {
    TrimStartShortens(s);
    TrimEndShortens(TrimStart(s));
  }

  lemma {:induction false} TrimStartShortens(s: string)
    ensures |TrimStart(s)| <= |s| && (|TrimStart(s)| == |s| ==> TrimStart(s) == s)
  {
    if s != [] { TrimStartShortens(s[1..]); }
  }

  lemma {:induction false} TrimEndShortens(s: string)
    ensures |TrimEnd(s)| <= |s| && (|TrimEnd(s)| == |s| ==> TrimEnd(s) == s)
    decreases |s|
  {
    if s != [] { TrimEndShortens(s[..|s| - 1]); }
  }

  /** The length of a joined list. */
  function JoinedLength(pieces: seq<string>): nat {
    if pieces == [] then 0 else if |pieces| == 1 then |pieces[0]| else |pieces[0]| + 1 + JoinedLength(pieces[1..])
  }

  lemma {:induction false} LengthOfJoin(pieces: seq<string>)
    ensures |Join(pieces)| == JoinedLength(pieces)
  {
    if |pieces| > 1 { LengthOfJoin(pieces[1..]); }
  }

  /** Trimming the pieces shortens the joined text unless there is nothing to trim. */
  lemma {:induction false} TrimAllShortens(pieces: seq<string>)
    ensures |TrimAll(pieces)| == |pieces| && JoinedLength(TrimAll(pieces)) <= JoinedLength(pieces)
    ensures JoinedLength(TrimAll(pieces)) == JoinedLength(pieces) ==> TrimAll(pieces) == pieces
  {
    hide Trim;
    if pieces != [] {
      TrimShortens(pieces[0]);
      TrimAllShortens(pieces[1..]);
      assert TrimAll(pieces)[1..] == TrimAll(pieces[1..]);
    }
  }

  lemma {:induction false} TrimmedPieces(pieces: seq<string>)
    ensures TrimAll(pieces) == pieces <==> forall i :: 0 <= i < |pieces| ==> Trim(pieces[i]) == pieces[i]
  {
    hide Trim;
    if pieces != [] { TrimmedPieces(pieces[1..]); }
  }

  /**
   * The split that is returned, with its pieces trimmed, inverts joining if and only if the list is
   * empty, or it is not the single empty text, its pieces can be told apart, and none is padded.
   */
  lemma {:induction false} TrimmedSplitInvertsJoinIff(pieces: seq<string>)
    ensures Split(Join(pieces)) == pieces <==>
            pieces == []
            || (pieces != [""] && IsSplit(pieces) && forall i :: 0 <= i < |pieces| ==> Trim(pieces[i]) == pieces[i])
  {
    hide Trim, IsSplit, RawPieces;
    var s := Join(pieces);
    var raw := RawPieces(s);
    TrimmedPieces(pieces);
    SplitInvertsJoinIff(pieces);
    if s != [] && TrimAll(raw) == pieces {
      JoinInvertsRawPieces(s);
      LengthOfJoin(raw);
      LengthOfJoin(pieces);
      TrimAllShortens(raw);
    }
  }

  // ----------------------------------------------------------------- padded lists

  lemma {:induction false} TrimOfBlank(s: string)
    requires Blank(s)
    ensures Trim(s) == ""
  {
    if s != [] { TrimOfBlank(s[1..]); }
  }

  /** Empty, or without whitespace at either end. */
  predicate Unpadded(s: string) {
    s == "" || Tight(s)
  }

  function Padded(left: seq<string>, texts: seq<string>, right: seq<string>): (r: seq<string>)
    requires |left| == |texts| == |right|
    ensures |r| == |texts| && forall i :: 0 <= i < |r| ==> r[i] == left[i] + texts[i] + right[i]
  {
    seq(|texts|, i requires 0 <= i < |texts| => left[i] + texts[i] + right[i])
  }

  lemma BlankIsFlat(s: string)
    requires Blank(s)
    ensures Depth(s) == 0 && Without(s, ',')
  {
    FlatIsNested(s);
  }

  lemma PaddingKeepsDepth(left: string, s: string, right: string)
    requires Blank(left) && Blank(right)
    ensures Depth(left + s + right) == Depth(s)
  {
    BlankIsFlat(left);
    BlankIsFlat(right);
    DepthConcat(left, s);
    DepthConcat(left + s, right);
  }

  lemma PaddingKeepsWhole(left: string, s: string, right: string)
    requires Blank(left) && Blank(right) && Whole(s)
    ensures Whole(left + s + right)
  {
    BlankIsFlat(left);
    BlankIsFlat(right);
    var t, front := left + s + right, left + s;
    forall i: nat | i < |t| ensures !TopComma(t, i) {
      if i < |front| {
        TopCommaInPrefix(front, right, i);
        if i >= |left| {
          assert front[..|left|] == left && front[|left|..] == s;
          TopCommaShift(front, |left|, i - |left|);
        }
      } else {
        assert t[i] == right[i - |front|];
      }
    }
  }

  lemma PaddingIsTrimmed(left: string, s: string, right: string)
    requires Blank(left) && Blank(right) && Unpadded(s)
    ensures Trim(left + s + right) == s
  {
    if s == "" {
      TrimOfBlank(left + s + right);
    } else {
      TrimRemovesPadding(left, s, right);
    }
  }

  lemma {:induction false} TrimAllAt(pieces: seq<string>)
    ensures |TrimAll(pieces)| == |pieces|
    ensures forall i :: 0 <= i < |pieces| ==> TrimAll(pieces)[i] == Trim(pieces[i])
  {
    hide Trim;
    if pieces != [] { TrimAllAt(pieces[1..]); }
  }

  /** A list is recovered from its text whatever whitespace surrounds its pieces. */
  lemma {:induction false} SplitIgnoresPadding(left: seq<string>, texts: seq<string>, right: seq<string>)
    requires |left| == |texts| == |right| && IsSplit(texts)
    requires forall i :: 0 <= i < |texts| ==> Blank(left[i]) && Blank(right[i]) && Unpadded(texts[i])
    requires Join(Padded(left, texts, right)) != ""
    ensures Split(Join(Padded(left, texts, right))) == texts
  {
    hide Depth, Whole, Trim, Blank, Unpadded, Join, TrimAll, RawPieces;
    var padded := Padded(left, texts, right);
    forall i | 0 <= i < |padded|
      ensures Whole(padded[i]) && Depth(padded[i]) == Depth(texts[i]) && Trim(padded[i]) == texts[i]
    {
      PaddingKeepsWhole(left[i], texts[i], right[i]);
      PaddingKeepsDepth(left[i], texts[i], right[i]);
      PaddingIsTrimmed(left[i], texts[i], right[i]);
    }
    RawPiecesOfJoin(padded);
    TrimAllAt(padded);
    assert TrimAll(padded) == texts;
  }

  // -------------------------------------------------------------- Solidity types

  /** `size` is empty for a dynamic array. */
  datatype Type =
    | Elementary(name: string)
    | Tuple(members: seq<Type>)
    | Array(element: Type, size: string)

  /** A word of a type: no parenthesis, comma or whitespace. */
  ghost predicate Plain(s: string) {
    forall i :: 0 <= i < |s| ==> s[i] != '(' && s[i] != ')' && s[i] != ',' && !IsWhitespace(s[i])
  }

  ghost predicate WellFormed(t: Type) {
    match t
    case Elementary(name) => name != [] && Plain(name)
    case Tuple(members) => forall i :: 0 <= i < |members| ==> WellFormed(members[i])
    case Array(element, size) => WellFormed(element) && Plain(size)
  }

  function Print(t: Type): string
    decreases t, 0
  {
    match t
    case Elementary(name) => name
    case Tuple(members) => "(" + Join(PrintAll(members)) + ")"
    case Array(element, size) => Print(element) + ("[" + size + "]")
  }

  function PrintAll(ts: seq<Type>): (r: seq<string>)
    ensures |r| == |ts| && forall i :: 0 <= i < |r| ==> r[i] == Print(ts[i])
    decreases ts, 1
  {
    if ts == [] then [] else [Print(ts[0])] + PrintAll(ts[1..])
  }

  /** Parentheses match: the depth never goes negative and ends at zero. */
  ghost predicate Nested(s: string) {
    Depth(s) == 0 && forall i :: 0 <= i <= |s| ==> Depth(s[..i]) >= 0
  }

  lemma NestedConcat(a: string, b: string)
    requires Nested(a) && Nested(b)
    ensures Nested(a + b)
  {
    DepthConcat(a, b);
    forall i | 0 <= i <= |a + b| ensures Depth((a + b)[..i]) >= 0 {
      if i <= |a| {
        assert (a + b)[..i] == a[..i];
      } else {
        assert (a + b)[..i] == a + b[..i - |a|];
        DepthConcat(a, b[..i - |a|]);
      }
    }
  }

  lemma {:induction false} FlatIsNested(s: string)
    requires forall i :: 0 <= i < |s| ==> s[i] != '(' && s[i] != ')'
    ensures Nested(s)
    decreases |s|
  {
    if s != [] {
      var n := |s| - 1;
      FlatIsNested(s[..n]);
      forall i | 0 <= i <= |s| ensures Depth(s[..i]) >= 0 {
        if i <= n { assert s[..i] == s[..n][..i]; } else { assert s[..i] == s; }
      }
    }
  }

  lemma WrapIsWhole(inner: string)
    requires Nested(inner)
    ensures Nested("(" + inner + ")") && Whole("(" + inner + ")")
  {
    var s := "(" + inner + ")";
    forall i | 0 < i < |s| ensures Depth(s[..i]) >= 1 {
      assert s[..i] == "(" + inner[..i - 1];
      DepthConcat("(", inner[..i - 1]);
    }
    assert s == "(" + inner + ")" && s[..|s| - 1] == "(" + inner;
    DepthConcat("(", inner);
    assert s[..|s|] == s;
  }

  lemma PlainSuffix(a: string, b: string)
    requires Nested(a) && Whole(a) && Plain(b)
    ensures Nested(a + b) && Whole(a + b)
  {
    FlatIsNested(b);
    NestedConcat(a, b);
    forall i: nat | i < |a + b| ensures !TopComma(a + b, i) {
      if i < |a| { TopCommaInPrefix(a, b, i); } else { assert (a + b)[i] == b[i - |a|]; }
    }
  }

  lemma {:induction false} JoinIsNested(pieces: seq<string>)
    requires forall i :: 0 <= i < |pieces| ==> Nested(pieces[i])
    ensures Nested(Join(pieces))
  {
    if |pieces| > 1 {
      JoinIsNested(pieces[1..]);
      FlatIsNested(",");
      NestedConcat(pieces[0], ",");
      NestedConcat(pieces[0] + ",", Join(pieces[1..]));
    }
  }

  /** Printed types are uncut, closed and unpadded. */
  lemma {:induction false} PrintedTypeIsPiece(t: Type)
    requires WellFormed(t)
    ensures Nested(Print(t)) && Whole(Print(t)) && Tight(Print(t))
    decreases t
  {
    match t
    case Elementary(name) =>
      FlatIsNested(name);
    case Tuple(members) =>
      forall i | 0 <= i < |members| ensures Nested(PrintAll(members)[i]) {
        PrintedTypeIsPiece(members[i]);
      }
      JoinIsNested(PrintAll(members));
      WrapIsWhole(Join(PrintAll(members)));
    case Array(element, size) =>
      PrintedTypeIsPiece(element);
      PlainSuffix(Print(element), "[" + size + "]");
      var s := Print(t);
      assert s[0] == Print(element)[0] && s[|s| - 1] == ']';
  }

  /** Splitting inverts printing, for every list of types with tuples and arrays nested at will. */
  lemma SplitInvertsPrint(ts: seq<Type>)
    requires forall i :: 0 <= i < |ts| ==> WellFormed(ts[i])
    ensures Split(Join(PrintAll(ts))) == PrintAll(ts)
  {
    hide RawPieces, IsSplit, PrintAll, WellFormed, TrimAll;
    if ts == [] {
      NothingPrinted();
    } else {
      PrintedListIsSplit(ts);
      RawPiecesOfJoin(PrintAll(ts));
    }
  }

  lemma NothingPrinted()
    ensures Split(Join(PrintAll([]))) == PrintAll([])
  {
  }

  /** A text a split neither cuts nor trims. */
  ghost predicate Stays(s: string) {
    Depth(s) == 0 && Whole(s) && Trim(s) == s != []
  }

  lemma {:induction false} StayingListIsSplit(pieces: seq<string>)
    requires pieces != [] && forall i :: 0 <= i < |pieces| ==> Stays(pieces[i])
    ensures IsSplit(pieces) && TrimAll(pieces) == pieces && Join(pieces) != []
  {
    hide Depth, Whole, Trim, TrimAll;
    assert Stays(pieces[0]);
    TrimAllKeepsTrimmed(pieces);
  }

  lemma {:induction false} PrintedListIsSplit(ts: seq<Type>)
    requires ts != [] && forall i :: 0 <= i < |ts| ==> WellFormed(ts[i])
    ensures IsSplit(PrintAll(ts)) && TrimAll(PrintAll(ts)) == PrintAll(ts) && Join(PrintAll(ts)) != []
  {
    hide Stays, Print, PrintAll, WellFormed, IsSplit, TrimAll, Join;
    var pieces := PrintAll(ts);
    forall i | 0 <= i < |pieces| ensures Stays(pieces[i]) {
      PrintedTypeStays(ts[i]);
    }
    StayingListIsSplit(pieces);
  }

  lemma PrintedTypeStays(t: Type)
    requires WellFormed(t)
    ensures Stays(Print(t))
  {
    PrintedTypeIsPiece(t);
    assert [] + Print(t) + [] == Print(t);
    TrimRemovesPadding([], Print(t), []);
  }

  // ------------------------------------------------------------ the parameter list

  ghost predicate Without(s: string, c: char) {
    forall i :: 0 <= i < |s| ==> s[i] != c
  }

  function Find(s: string, c: char): (r: Option<nat>)
    ensures r.None? <==> Without(s, c)
    ensures r.Some? ==> r.value < |s| && s[r.value] == c && forall i :: 0 <= i < r.value ==> s[i] != c
  {
    if s == [] then None
    else if s[0] == c then Some(0)
    else
      match Find(s[1..], c)
      case None => None
      case Some(i) => Some(i + 1)
  }

  function FindLast(s: string, c: char): (r: Option<nat>)
    ensures r.None? <==> Without(s, c)
    ensures r.Some? ==> r.value < |s| && s[r.value] == c && forall i :: r.value < i < |s| ==> s[i] != c
  {
    if s == [] then None
    else if s[|s| - 1] == c then Some(|s| - 1)
    else FindLast(s[..|s| - 1], c)
  }

  function ExtractParamList(signature: string): Option<string> {
    match (Find(signature, '('), FindLast(signature, ')'))
    case (Some(open), Some(close)) => if close <= open then None else Some(signature[open + 1..close])
    case _ => None
  }

  /** The list is what stands between the first `(` and the last `)`, whatever precedes and follows. */
  lemma ExtractInvertsWrapping(name: string, params: string, tail: string)
    requires Without(name, '(') && Without(tail, ')')
    ensures ExtractParamList(name + "(" + params + ")" + tail) == Some(params)
  {
    var s := name + "(" + params + ")" + tail;
    var open, close := |name|, |name| + 1 + |params|;
    assert s[open] == '(' && s[close] == ')' && s[open + 1..close] == params;
    assert forall i :: 0 <= i < open ==> s[i] == name[i];
    assert forall i :: close < i < |s| ==> s[i] == tail[i - close - 1];
    hide ExtractParamList;
    ExtractBetween(s, open, close);
  }

  lemma ExtractBetween(s: string, open: nat, close: nat)
    requires open < close < |s| && s[open] == '(' && s[close] == ')'
    requires (forall i :: 0 <= i < open ==> s[i] != '(') && forall i :: close < i < |s| ==> s[i] != ')'
    ensures ExtractParamList(s) == Some(s[open + 1..close])
  {
    assert Find(s, '(') == Some(open);
    assert FindLast(s, ')') == Some(close);
  }

  ghost predicate Wraps(s: string, params: string, name: string, tail: string) {
    Without(name, '(') && Without(tail, ')') && s == name + "(" + params + ")" + tail
  }

  /** A signature is read exactly when some `)` comes after some `(`, and then in full. */
  lemma ExtractMeaning(s: string)
    ensures ExtractParamList(s).Some?
       <==> exists open, close :: 0 <= open < close < |s| && s[open] == '(' && s[close] == ')'
    ensures ExtractParamList(s).Some? ==> exists name, tail :: Wraps(s, ExtractParamList(s).value, name, tail)
  {
    if ExtractParamList(s).Some? {
      var open, close := Find(s, '(').value, FindLast(s, ')').value;
      var params := s[open + 1..close];
      assert s == s[..open] + "(" + params + ")" + s[close + 1..];
      assert Wraps(s, params, s[..open], s[close + 1..]);
    }
  }

  lemma ExtractInvertsPlainWrapping(name: string, params: string)
    requires Without(name, '(')
    ensures ExtractParamList(name + "(" + params + ")") == Some(params)
  {
    hide ExtractParamList;
    assert name + "(" + params + ")" + "" == name + "(" + params + ")";
    ExtractInvertsWrapping(name, params, "");
  }

  /** From a printed signature back to the texts of its parameter types. */
  lemma SignatureRoundTrip(name: string, ts: seq<Type>)
    requires Without(name, '(') && forall i :: 0 <= i < |ts| ==> WellFormed(ts[i])
    ensures var params := ExtractParamList(name + "(" + Join(PrintAll(ts)) + ")");
            params.Some? && Split(params.value) == PrintAll(ts)
  {
    hide Join, Split, ExtractParamList, WellFormed, PrintAll, Without;
    var params := Join(PrintAll(ts));
    SplitInvertsPrint(ts);
    ExtractInvertsPlainWrapping(name, params);
  }
}
