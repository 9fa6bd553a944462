/** Masking URLs in error messages before they are stored for good. */
module Redaction {
  import opened Options

  const HTTPS: string := "https://"
  const HTTP: string := "http://"
  const REDACTED: string := "<redacted-url>"

  /** The cap on a stored error message, in characters. */
  const ERROR_MESSAGE_CAP: nat := 500

  predicate OccursAt(s: string, p: string, i: nat) {
    i + |p| <= |s| && s[i..i + |p|] == p
  }

  predicate SchemeAt(s: string, i: nat) {
    OccursAt(s, HTTPS, i) || OccursAt(s, HTTP, i)
  }

  ghost predicate SchemeFree(s: string) {
    forall i: nat :: i < |s| ==> !SchemeAt(s, i)
  }

  predicate IsAsciiWhitespace(c: char) {
    c == ' ' || c == '\t' || c == '\n' || c == '\r' || c == '\U{000C}'
  }

  /** The first occurrence of `p` at or after `from`. */
  function FindFrom(s: string, p: string, from: nat): (r: Option<nat>)
    requires from <= |s| && p != []
    ensures r.Some? ==> from <= r.value < |s| && OccursAt(s, p, r.value)
    ensures r.Some? ==> forall i :: from <= i < r.value ==> !OccursAt(s, p, i)
    ensures r.None? ==> forall i: nat :: from <= i ==> !OccursAt(s, p, i)
    decreases |s| - from
  {
    if OccursAt(s, p, from) then Some(from)
    else if from == |s| then None
    else FindFrom(s, p, from + 1)
  }

  function FirstScheme(s: string): (r: Option<nat>)
    ensures r.Some? ==> r.value < |s| && SchemeAt(s, r.value) && forall i: nat :: i < r.value ==> !SchemeAt(s, i)
    ensures r.None? <==> SchemeFree(s)
  {
    match (FindFrom(s, HTTPS, 0), FindFrom(s, HTTP, 0))
    case (None, q) => q
    case (p, None) => p
    case (Some(p), Some(q)) => Some(Min(p, q))
  }

  /** Where a URL ends: at the first whitespace, or with the text. */
  function UrlEnd(s: string): (end: nat)
    ensures end <= |s| && (end < |s| ==> IsAsciiWhitespace(s[end]))
    ensures forall i :: 0 <= i < end ==> !IsAsciiWhitespace(s[i])
  {
    if s == [] || IsAsciiWhitespace(s[0]) then 0 else 1 + UrlEnd(s[1..])
  }

  lemma SchemeStartsUrl(s: string)
    requires SchemeAt(s, 0)
    ensures |s| >= 7 && s[0] == 'h' && UrlEnd(s) >= 1
  {
    if OccursAt(s, HTTPS, 0) {
      assert s[0] == s[0..8][0];
    } else {
      assert s[0] == s[0..7][0];
    }
  }

  lemma SchemeAtShift(s: string, from: nat, i: nat)
    requires from <= |s|
    ensures SchemeAt(s[from..], i) <==> SchemeAt(s, from + i)
  {
    if from + i + 7 <= |s| {
      assert s[from..][i..i + 7] == s[from + i..from + i + 7];
    }
    if from + i + 8 <= |s| {
      assert s[from..][i..i + 8] == s[from + i..from + i + 8];
    }
  }

  function Redact(s: string): string
    decreases |s|
  {
    match FirstScheme(s)
    case None => s
    case Some(start) =>
      var after := s[start..];
      assert SchemeAt(after, 0) by { SchemeAtShift(s, start, 0); }
      SchemeStartsUrl(after);
      s[..start] + REDACTED + Redact(after[UrlEnd(after)..])
  }

  /** The nearest of the two schemes. */
  method NextScheme(rest: string) returns (next: Option<nat>)
    ensures next == FirstScheme(rest)
  {
    var schemes := [HTTPS, HTTP];
    next := None;
    for i := 0 to |schemes|
      invariant i == 0 ==> next.None?
      invariant i == 1 ==> next == FindFrom(rest, HTTPS, 0)
      invariant i == 2 ==> next == FirstScheme(rest)
    {
      match FindFrom(rest, schemes[i], 0)
      case Some(p) =>
        next := Some(match next case None => p case Some(q) => Min(q, p));
      case None =>
    }
  }

  /** One step of the recursion: the first URL is replaced and the text shrinks. */
  lemma RedactStep(s: string)
    ensures match FirstScheme(s)
            case None => Redact(s) == s
            case Some(start) =>
              var after := s[start..];
              var rest := after[UrlEnd(after)..];
              Redact(s) == s[..start] + REDACTED + Redact(rest) && |rest| < |s|
  {
    hide OccursAt, SchemeAt, UrlEnd, FirstScheme;
    match FirstScheme(s)
    case None =>
    case Some(start) =>
      SchemeAtShift(s, start, 0);
      SchemeStartsUrl(s[start..]);
  }

  lemma Regroup(a: string, b: string, c: string, d: string)
    ensures a + (b + c + d) == a + b + c + d
  {
  }

  method RedactUrls(input: string) returns (out: string)
    ensures out == Redact(input)
  {
    hide *;
    out := "";
    var rest := input;
    assert "" + Redact(rest) == Redact(input);
    while true
      invariant out + Redact(rest) == Redact(input)
      decreases |rest|
    {
      var next := NextScheme(rest);
      RedactStep(rest);
      match next
      case None =>
        out := out + rest;
        return;
      case Some(start) =>
        ghost var before := out;
        out := out + rest[..start];
        var after := rest[start..];
        var end := UrlEnd(after);
        Regroup(before, rest[..start], REDACTED, Redact(after[end..]));
        out := out + REDACTED;
        rest := after[end..];
    }
  }

  // -------------------------------------------------------------- no URL is left

  /** A scheme is seven or eight characters, starts with `h` and contains no `<`. */
  lemma SchemeShape(s: string, i: nat)
    requires SchemeAt(s, i)
    ensures i + 7 <= |s| && s[i] == 'h' && forall j :: i <= j < i + 7 ==> s[j] != '<'
    ensures OccursAt(s, HTTPS, i) && !OccursAt(s, HTTP, i) ==> i + 8 <= |s| && s[i + 7] != '<'
  {
    if OccursAt(s, HTTPS, i) {
      assert forall j :: 0 <= j < 8 ==> s[i + j] == s[i..i + 8][j] == HTTPS[j];
    } else {
      assert forall j :: 0 <= j < 7 ==> s[i + j] == s[i..i + 7][j] == HTTP[j];
    }
  }

  /** A scheme that starts before a `<` ends before it. */
  lemma SchemeBeforeMask(a: string, m: string, i: nat)
    requires i < |a| && m != [] && m[0] == '<'
    ensures SchemeAt(a + m, i) ==> SchemeAt(a, i)
  {
    var s := a + m;
    if SchemeAt(s, i) {
      SchemeShape(s, i);
      assert s[|a|] == '<';
      if OccursAt(s, HTTP, i) {
        assert a[i..i + 7] == s[i..i + 7];
      } else {
        assert a[i..i + 8] == s[i..i + 8];
      }
    }
  }

  lemma NoSchemeInMask(b: string, i: nat)
    requires i < |REDACTED|
    ensures !SchemeAt(REDACTED + b, i)
  {
    var s := REDACTED + b;
    assert s[i] == REDACTED[i] && REDACTED[i] != 'h';
    if SchemeAt(s, i) {
      SchemeShape(s, i);
    }
  }

  /** Inserting the mask between two scheme-free texts creates no scheme, not even across the seams. */
  lemma MaskSeparates(a: string, b: string)
    requires SchemeFree(a) && SchemeFree(b)
    ensures SchemeFree(a + REDACTED + b)
  {
    var s := a + REDACTED + b;
    assert s == a + (REDACTED + b);
    assert s[|a|..] == REDACTED + b && s[|a| + |REDACTED|..] == b;
    forall i: nat | i < |s| ensures !SchemeAt(s, i) {
      if i < |a| {
        SchemeBeforeMask(a, REDACTED + b, i);
      } else if i < |a| + |REDACTED| {
        SchemeAtShift(s, |a|, i - |a|);
        NoSchemeInMask(b, i - |a|);
      } else {
        SchemeAtShift(s, |a| + |REDACTED|, i - |a| - |REDACTED|);
      }
    }
  }

  lemma SchemeInPrefix(s: string, n: nat, i: nat)
    requires n <= |s|
    ensures SchemeAt(s[..n], i) ==> SchemeAt(s, i)
    ensures i + 8 <= n ==> (SchemeAt(s[..n], i) <==> SchemeAt(s, i))
  {
    if i + 7 <= n { assert s[..n][i..i + 7] == s[i..i + 7]; }
    if i + 8 <= n { assert s[..n][i..i + 8] == s[i..i + 8]; }
  }

  lemma PrefixIsSchemeFree(s: string, n: nat)
    requires n <= |s| && forall i: nat :: i < n ==> !SchemeAt(s, i)
    ensures SchemeFree(s[..n])
  {
    forall i: nat | i < n ensures !SchemeAt(s[..n], i) {
      SchemeInPrefix(s, n, i);
    }
  }

  /** Whatever the input, the stored message contains no URL scheme. */
  lemma {:induction false} RedactLeavesNoScheme(s: string)
    ensures SchemeFree(Redact(s))
    decreases |s|
  {
    match FirstScheme(s)
    case None =>
    case Some(start) =>
      var after := s[start..];
      assert SchemeAt(after, 0) by { SchemeAtShift(s, start, 0); }
      SchemeStartsUrl(after);
      RedactLeavesNoScheme(after[UrlEnd(after)..]);
      PrefixIsSchemeFree(s, start);
      MaskSeparates(s[..start], Redact(after[UrlEnd(after)..]));
  }

  /** Redaction changes exactly the texts that contain a scheme; hence it is idempotent. */
  lemma RedactIsIdentityIff(s: string)
    ensures Redact(s) == s <==> SchemeFree(s)
    ensures Redact(Redact(s)) == Redact(s)
  {
    RedactLeavesNoScheme(s);
  }

  function Truncate(s: string, n: nat): string {
    s[..Min(n, |s|)]
  }

  /** What is stored: redact first, then cut. The cut exposes nothing. */
  lemma StoredMessageHasNoScheme(s: string, cap: nat)
    ensures SchemeFree(Truncate(Redact(s), cap))
  {
    RedactLeavesNoScheme(s);
    PrefixIsSchemeFree(Redact(s), Min(cap, |Redact(s)|));
  }

  // ---------------------------------------------------- everything else is kept

  /** Text, then a URL. */
  datatype Part = Part(text: string, url: string)

  function Render(parts: seq<Part>, tail: string): string {
    if parts == [] then tail else parts[0].text + parts[0].url + Render(parts[1..], tail)
  }

  /** The same text with every URL replaced. */
  function Masked(parts: seq<Part>, tail: string): string {
    if parts == [] then tail else parts[0].text + REDACTED + Masked(parts[1..], tail)
  }

  /**
   * A decomposition into text and URLs: a URL begins at the first scheme after the previous
   * URL, has no whitespace, and extends to the next whitespace or the end.
   */
  ghost predicate Decomposed(parts: seq<Part>, tail: string) {
    if parts == [] then SchemeFree(tail)
    else
      var p := parts[0];
      var rest := Render(parts[1..], tail);
      && SchemeAt(p.url, 0) && (forall i: nat :: i < |p.text| ==> !SchemeAt(p.text + p.url, i))
      && (forall i :: 0 <= i < |p.url| ==> !IsAsciiWhitespace(p.url[i]))
      && (rest == [] || IsAsciiWhitespace(rest[0]))
      && Decomposed(parts[1..], tail)
  }

  lemma UrlEndBeforeRest(url: string, rest: string)
    requires forall i :: 0 <= i < |url| ==> !IsAsciiWhitespace(url[i])
    requires rest == [] || IsAsciiWhitespace(rest[0])
    ensures UrlEnd(url + rest) == |url|
  {
    var s := url + rest;
    assert forall i :: 0 <= i < |url| ==> s[i] == url[i];
    assert rest != [] ==> s[|url|] == rest[0];
  }

  lemma FirstSchemeIsTheUrl(text: string, url: string, rest: string)
    requires SchemeAt(url, 0) && forall i: nat :: i < |text| ==> !SchemeAt(text + url, i)
    ensures FirstScheme(text + url + rest) == Some(|text|)
  {
    var s := text + url + rest;
    SchemeStartsUrl(url);
    forall i: nat | i <= |text| ensures SchemeAt(s, i) <==> SchemeAt(text + url, i) {
      if i + 7 <= |text + url| { assert s[i..i + 7] == (text + url)[i..i + 7]; }
      if i + 8 <= |text + url| { assert s[i..i + 8] == (text + url)[i..i + 8]; }
      if i == |text| && |url| == 7 {
        assert OccursAt(url, HTTP, 0);
        assert (text + url)[|text|..|text| + 7] == url;
      }
    }
    assert (text + url)[|text|..] == url;
    SchemeAtShift(text + url, |text|, 0);
  }

  /** Redaction replaces the URLs and keeps every other character, in order. */
  lemma {:induction false} RedactKeepsText(parts: seq<Part>, tail: string)
    requires Decomposed(parts, tail)
    ensures Redact(Render(parts, tail)) == Masked(parts, tail)
    decreases |parts|
  {
    hide OccursAt, SchemeAt, UrlEnd, IsAsciiWhitespace, FirstScheme;
    if parts != [] {
      var p := parts[0];
      var rest := Render(parts[1..], tail);
      var s := Render(parts, tail);
      FirstSchemeIsTheUrl(p.text, p.url, rest);
      UrlEndBeforeRest(p.url, rest);
      assert s[|p.text|..] == p.url + rest && s[..|p.text|] == p.text;
      assert (p.url + rest)[|p.url|..] == rest;
      RedactKeepsText(parts[1..], tail);
    }
  }

  /** Every text has such a decomposition. */
  lemma {:induction false} EveryTextDecomposes(s: string) returns (parts: seq<Part>, tail: string)
    ensures Decomposed(parts, tail) && Render(parts, tail) == s
    decreases |s|
  {
    hide OccursAt, SchemeAt, UrlEnd, IsAsciiWhitespace, SchemeFree, FirstScheme;
    match FirstScheme(s)
    case None =>
      parts, tail := [], s;
    case Some(start) =>
      var after := s[start..];
      SchemeAtShift(s, start, 0);
      SchemeStartsUrl(after);
      var end := UrlEnd(after);
      var more, t := EveryTextDecomposes(after[end..]);
      SchemeInsideUrl(after, end);
      TextBeforeUrl(s, start, end);
      parts, tail := [Part(s[..start], after[..end])] + more, t;
      assert parts[1..] == more;
      assert s[..start] + after[..end] + after[end..] == s;
  }

  lemma TextBeforeUrl(s: string, start: nat, end: nat)
    requires start + end <= |s| && forall i: nat :: i < start ==> !SchemeAt(s, i)
    ensures forall i: nat :: i < start ==> !SchemeAt(s[..start] + s[start..][..end], i)
  {
    var u := s[..start + end];
    assert s[..start] + s[start..][..end] == u;
    forall i: nat | i < start ensures !SchemeAt(u, i) {
      SchemeInPrefix(s, start + end, i);
    }
  }

  lemma SchemeInsideUrl(after: string, end: nat)
    requires SchemeAt(after, 0) && end == UrlEnd(after)
    ensures SchemeAt(after[..end], 0)
  {
    var n := if OccursAt(after, HTTPS, 0) then 8 else 7;
    assert forall i :: 0 <= i < n ==> after[i] == after[0..n][i];
    assert after[..end][0..n] == after[0..n];
  }
}
