/** Evidence references into pinned sources: an optional prefix, a path and a line anchor. */
module Evidence {
  import Finite
  import opened Schema
  import Strings

  // ------------------------------------------------------- the grammar

  predicate IsDigit(c: char) { '0' <= c <= '9' }

  predicate PathChar(c: char) {
    IsDigit(c) || 'a' <= c <= 'z' || 'A' <= c <= 'Z' || c in {'/', '.', '_', '-'}
  }

  function Digit(c: char): (d: nat)
    requires IsDigit(c)
  {
    c as int - '0' as int
  }

  function Decimal(s: string): nat
    requires forall i :: 0 <= i < |s| ==> IsDigit(s[i])
  {
    if s == "" then 0 else 10 * Decimal(s[..|s| - 1]) + Digit(s[|s| - 1])
  }

  /** A positive line number without leading zeros that fits 64 bits. */
  predicate Line(s: string, n: nat) {
    && s != "" && s[0] != '0' && (forall i :: 0 <= i < |s| ==> IsDigit(s[i]))
    && Decimal(s) == n <= U64_MAX
  }

  /** Components of a path between slashes. */
  function Components(path: string): seq<string> {
    var i := FirstOf(path, '/');
    if i == |path| then [path] else [path[..i]] + Components(path[i + 1..])
  }

  predicate CleanPath(path: string) {
    && path != "" && (forall i :: 0 <= i < |path| ==> PathChar(path[i]))
    && forall c :: c in Components(path) ==> c != "" && c != "." && c != ".."
  }

  predicate PinnedPath(path: string) {
    CleanPath(path) && (path in {"quickjs.c", "test262.conf", "test262_errors.txt"} || "tests/" <= path)
  }

  type Anchor = Option<(nat, nat)>

  /** What the text after the path says: nothing, one line, or a range of lines. */
  ghost predicate AnchorDenotes(text: string, a: Anchor) {
    match a
    case None => text == ""
    case Some((first, last)) =>
      || (first == last && text != "" && text[0] == ':' && Line(text[1..], first))
      || (exists s: string, t: string ::
            text == ":" + s + "-" + t && Line(s, first) && Line(t, last) && first <= last)
  }

  datatype Reference = Reference(path: string, anchor: Anchor)

  ghost predicate BodyDenotes(value: string, r: Reference) {
    PinnedPath(r.path) && exists text: string :: AnchorDenotes(text, r.anchor) && value == r.path + text
  }

  /** `v` is a way to write the reference, with or without the leading directory. */
  ghost predicate Denotes(v: string, r: Reference) {
    BodyDenotes(v, r) || ("fusor/" <= v && BodyDenotes(v[6..], r))
  }

  // ------------------------------------------------------- the parser

  function FirstOf(s: string, c: char): (i: nat)
    ensures i <= |s| && (i < |s| ==> s[i] == c) && forall j :: 0 <= j < i ==> s[j] != c
  {
    if s == "" || s[0] == c then 0 else 1 + FirstOf(s[1..], c)
  }

  function ParseLine(s: string): (r: Option<nat>)
    ensures r.Some? ==> Line(s, r.value)
    ensures r.None? ==> forall n: nat :: !Line(s, n)
  {
    if s == "" || s[0] == '0' || exists i :: 0 <= i < |s| && !IsDigit(s[i]) then None
    else if Decimal(s) > U64_MAX then None
    else Some(Decimal(s))
  }

  /** An anchor after its colon. */
  function ParseAnchor(anchor: string): Option<(nat, nat)> {
    var i := FirstOf(anchor, '-');
    if i == |anchor| then
      var line := ParseLine(anchor);
      if line.None? then None else Some((line.value, line.value))
    else
      var end := anchor[i + 1..];
      if '-' in end then None
      else
        var first, last := ParseLine(anchor[..i]), ParseLine(end);
        if first.Some? && last.Some? && first.value <= last.value then Some((first.value, last.value)) else None
  }

  function ParseBody(value: string): Option<Reference> {
    var i := FirstOf(value, ':');
    if !PinnedPath(value[..i]) then None
    else if i == |value| then Some(Reference(value, None))
    else
      var anchor := ParseAnchor(value[i + 1..]);
      if anchor.None? then None else Some(Reference(value[..i], anchor))
  }

  function Parse(v: string): Option<Reference> {
    ParseBody(if "fusor/" <= v then v[6..] else v)
  }

  // ------------------------------------------------------- parser and grammar agree

  lemma FirstOfIs(s: string, c: char, i: nat)
    requires i <= |s| && (i < |s| ==> s[i] == c) && forall j :: 0 <= j < i ==> s[j] != c
    ensures FirstOf(s, c) == i
  {
    assert !(FirstOf(s, c) < i);
  }

  lemma ParsedAnchor(anchor: string)
    requires ParseAnchor(anchor).Some?
    ensures AnchorDenotes([':'] + anchor, Some(ParseAnchor(anchor).value))
  {
    var i, text := FirstOf(anchor, '-'), [':'] + anchor;
    assert text[1..] == anchor;
    if i < |anchor| {
      assert text == ":" + anchor[..i] + "-" + anchor[i + 1..];
    }
  }

  lemma LineHasNoDash(s: string, n: nat)
    requires Line(s, n)
    ensures '-' !in s && FirstOf(s, '-') == |s| && ParseLine(s) == Some(n)
  {
    forall i | 0 <= i < |s| ensures s[i] != '-' { assert IsDigit(s[i]); }
    FirstOfIs(s, '-', |s|);
  }

  lemma RangeParses(s: string, t: string, first: nat, last: nat)
    requires Line(s, first) && Line(t, last) && first <= last
    ensures ParseAnchor(s + "-" + t) == Some((first, last))
  {
    var anchor := s + "-" + t;
    LineHasNoDash(s, first);
    LineHasNoDash(t, last);
    FirstOfIs(anchor, '-', |s|);
    assert anchor[..|s|] == s && anchor[|s| + 1..] == t;
  }

  lemma DenotedAnchor(text: string, a: (nat, nat))
    requires AnchorDenotes(text, Some(a))
    ensures text != "" && text[0] == ':' && ParseAnchor(text[1..]) == Some(a)
  {
    if a.0 == a.1 && text != "" && text[0] == ':' && Line(text[1..], a.0) {
      LineHasNoDash(text[1..], a.0);
    } else {
      var s: string, t: string :| text == ":" + s + "-" + t && Line(s, a.0) && Line(t, a.1) && a.0 <= a.1;
      assert text[1..] == s + "-" + t;
      RangeParses(s, t, a.0, a.1);
    }
  }

  lemma PinnedPathPlain(path: string)
    requires PinnedPath(path)
    ensures ':' !in path && path != "" && path[0] != 'f'
  {
    forall i | 0 <= i < |path| ensures path[i] != ':' { assert PathChar(path[i]); }
    if "tests/" <= path { assert path[0] == "tests/"[0]; }
  }

  lemma ParsedBody(value: string)
    requires ParseBody(value).Some?
    ensures BodyDenotes(value, ParseBody(value).value)
  {
    var i := FirstOf(value, ':');
    if i == |value| {
      assert value[..i] == value && value == value + "";
      assert AnchorDenotes("", None);
    } else {
      Rejoined(value, i);
      ParsedAnchor(value[i + 1..]);
      var text := [':'] + value[i + 1..];
      assert AnchorDenotes(text, ParseAnchor(value[i + 1..]));
    }
  }

  lemma Rejoined(value: string, i: nat)
    requires i < |value| && value[i] == ':'
    ensures value == value[..i] + ([':'] + value[i + 1..])
  {}

  /** The path ends where the anchor begins. */
  lemma Split(path: string, text: string)
    requires ':' !in path && (text != "" ==> text[0] == ':')
    ensures FirstOf(path + text, ':') == |path| && (path + text)[..|path|] == path
    ensures text != "" ==> (path + text)[|path| + 1..] == text[1..]
  {
    FirstOfIs(path + text, ':', |path|);
  }

  lemma NotPrefixed(path: string, text: string)
    requires path != "" && path[0] != 'f'
    ensures !("fusor/" <= path + text)
  {
    assert (path + text)[0] == path[0] && "fusor/"[0] == 'f';
  }

  lemma BodyParses(value: string, r: Reference)
    requires BodyDenotes(value, r)
    ensures ParseBody(value) == Some(r) && !("fusor/" <= value)
  {
    var text: string :| AnchorDenotes(text, r.anchor) && value == r.path + text;
    PinnedPathPlain(r.path);
    NotPrefixed(r.path, text);
    match r.anchor
    case None =>
      Split(r.path, "");
      assert r.path + "" == r.path;
    case Some(a) =>
      DenotedAnchor(text, a);
      Split(r.path, text);
  }

  /** The parser returns exactly the reference that a text denotes; so equal results are
      equal references, however they are written. */
  lemma ParseExact(v: string, r: Reference)
    ensures Parse(v) == Some(r) <==> Denotes(v, r)
  {
    var value := if "fusor/" <= v then v[6..] else v;
    if ParseBody(value) == Some(r) { ParsedBody(value); }
    if BodyDenotes(v, r) { BodyParses(v, r); }
    if BodyDenotes(value, r) { BodyParses(value, r); }
  }

  // ------------------------------------------------------- lines and paths, said otherwise

  function Unit(c: char): (u: u16)
    requires IsDigit(c)
    ensures u == c as int && Strings.IsDigit(u)
  {
    c as int
  }

  function Units(s: string): (u: seq<u16>)
    requires forall i :: 0 <= i < |s| ==> IsDigit(s[i])
    ensures |u| == |s| && Strings.AllDigits(u) && forall i :: 0 <= i < |s| ==> u[i] == s[i] as int
  {
    seq(|s|, i requires 0 <= i < |s| => Unit(s[i]))
  }

  lemma {:induction false} DecimalIsValue(s: string)
    requires forall i :: 0 <= i < |s| ==> IsDigit(s[i])
    ensures Decimal(s) == Strings.Value(Units(s))
  {
    if s != "" {
      DecimalIsValue(s[..|s| - 1]);
      assert Units(s)[..|s| - 1] == Units(s[..|s| - 1]);
    }
  }

  /** A line is written as the canonical decimal of a positive 64-bit number. */
  lemma LineExactly(s: string, n: nat)
    ensures Line(s, n) <==>
            && 0 < n <= U64_MAX && (forall i :: 0 <= i < |s| ==> IsDigit(s[i]))
            && Units(s) == Strings.Spelling(n)
  {
    if s != "" && (forall i :: 0 <= i < |s| ==> IsDigit(s[i])) {
      DecimalIsValue(s);
      if s[0] != '0' { Strings.CanonicalSpelling(Units(s)); }
    }
    Strings.SpellingCanonical(n);
  }

  predicate ComponentChar(c: char) {
    '0' <= c <= '9' || 'a' <= c <= 'z' || 'A' <= c <= 'Z' || c == '.' || c == '_' || c == '-'
  }

  /** A name between slashes. */
  predicate Name(c: string) {
    c != "" && c != "." && c != ".." && forall i :: 0 <= i < |c| ==> ComponentChar(c[i])
  }

  function Slashed(cs: seq<string>): string
    requires cs != []
  {
    if |cs| == 1 then cs[0] else cs[0] + "/" + Slashed(cs[1..])
  }

  predicate AllNames(cs: seq<string>) { forall i :: 0 <= i < |cs| ==> Name(cs[i]) }

  lemma {:induction false} ComponentsOfSlashed(cs: seq<string>)
    requires cs != [] && AllNames(cs)
    ensures Components(Slashed(cs)) == cs
    decreases |cs|
  {
    var path, c := Slashed(cs), cs[0];
    assert Name(c);
    forall j | 0 <= j < |c| ensures path[j] != '/' { assert path[j] == c[j] && ComponentChar(c[j]); }
    FirstOfIs(path, '/', |c|);
    assert path[..|c|] == c;
    if |cs| > 1 {
      assert path[|c| + 1..] == Slashed(cs[1..]);
      forall i | 0 <= i < |cs| - 1 ensures Name(cs[1..][i]) { assert Name(cs[i + 1]); }
      ComponentsOfSlashed(cs[1..]);
      assert cs == [c] + cs[1..];
    } else {
      assert cs == [c];
    }
  }

  lemma SlashedCons(c: string, rest: seq<string>)
    requires rest != []
    ensures Slashed([c] + rest) == c + "/" + Slashed(rest)
  {
    assert ([c] + rest)[1..] == rest;
  }

  lemma Rejoin(path: string, i: nat)
    requires i < |path| && path[i] == '/'
    ensures path == path[..i] + "/" + path[i + 1..]
  {}

  lemma {:induction false} SlashedComponents(path: string)
    ensures Components(path) != [] && Slashed(Components(path)) == path
    decreases |path|
  {
    var i := FirstOf(path, '/');
    if i < |path| {
      var rest := Components(path[i + 1..]);
      SlashedComponents(path[i + 1..]);
      SlashedCons(path[..i], rest);
      Rejoin(path, i);
    } else {
      assert path[..i] == path;
    }
  }

  /** The characters of a component are characters of the path, and none is a slash. */
  predicate Inside(c: string, path: string) { forall i :: 0 <= i < |c| ==> c[i] != '/' && c[i] in path }

  lemma {:induction false} ComponentsInside(path: string, c: string)
    requires c in Components(path)
    ensures Inside(c, path)
    decreases |path|
  {
    var i := FirstOf(path, '/');
    if i < |path| && c != path[..i] {
      ComponentsInside(path[i + 1..], c);
      forall j | 0 <= j < |c| ensures c[j] != '/' && c[j] in path { assert c[j] in path[i + 1..]; }
    }
  }

  lemma NamesClean(cs: seq<string>)
    requires cs != [] && AllNames(cs)
    ensures CleanPath(Slashed(cs))
  {
    ComponentsOfSlashed(cs);
    SlashedChars(cs);
    assert Name(cs[0]) && Slashed(cs)[0] == cs[0][0];
  }

  lemma {:induction false} SlashedChars(cs: seq<string>)
    requires cs != [] && AllNames(cs)
    ensures forall i :: 0 <= i < |Slashed(cs)| ==> PathChar(Slashed(cs)[i])
    decreases |cs|
  {
    var c := cs[0];
    assert Name(c);
    forall j | 0 <= j < |c| ensures PathChar(c[j]) { assert ComponentChar(c[j]); }
    if |cs| > 1 {
      forall i | 0 <= i < |cs| - 1 ensures Name(cs[1..][i]) { assert Name(cs[i + 1]); }
      SlashedChars(cs[1..]);
    }
  }

  lemma CleanNames(path: string)
    requires CleanPath(path)
    ensures Components(path) != [] && AllNames(Components(path)) && Slashed(Components(path)) == path
  {
    SlashedComponents(path);
    forall k | 0 <= k < |Components(path)| ensures Name(Components(path)[k]) {
      var c := Components(path)[k];
      ComponentsInside(path, c);
      forall i | 0 <= i < |c| ensures ComponentChar(c[i]) {
        assert c[i] in path;
        var j :| 0 <= j < |path| && path[j] == c[i];
        assert PathChar(path[j]);
      }
    }
  }

  /** A clean path is a list of names joined by slashes. */
  lemma CleanExactly(path: string)
    ensures CleanPath(path) <==> exists cs: seq<string> :: cs != [] && AllNames(cs) && Slashed(cs) == path
  {
    if CleanPath(path) { CleanNames(path); }
    if cs: seq<string> :| cs != [] && AllNames(cs) && Slashed(cs) == path { NamesClean(cs); }
  }

  /** Names joined by slashes below the directory of tests. */
  predicate BelowTests(path: string, cs: seq<string>) {
    |cs| > 1 && cs[0] == "tests" && AllNames(cs) && Slashed(cs) == path
  }

  lemma PlainName(name: string)
    requires Name(name)
    ensures CleanPath(name)
  {
    assert AllNames([name]);
    NamesClean([name]);
  }

  lemma TestsComponents(path: string)
    requires CleanPath(path) && "tests/" <= path
    ensures BelowTests(path, Components(path))
  {
    CleanNames(path);
    assert "tests/"[0] == 't' && "tests/"[1] == 'e' && "tests/"[2] == 's' && "tests/"[3] == 't' && "tests/"[4] == 's';
    assert path[5] == "tests/"[5] == '/';
    FirstOfIs(path, '/', 5);
    assert path[..5] == "tests";
  }

  lemma TestsPrefix(path: string, cs: seq<string>)
    requires BelowTests(path, cs)
    ensures CleanPath(path) && "tests/" <= path
  {
    NamesClean(cs);
    assert path == "tests" + "/" + Slashed(cs[1..]);
    assert "tests" + "/" == "tests/";
  }

  /** The pinned paths: three files, and everything below the directory of tests. */
  lemma PinnedExactly(path: string)
    ensures PinnedPath(path) <==>
            || path == "quickjs.c" || path == "test262.conf" || path == "test262_errors.txt"
            || exists cs: seq<string> :: BelowTests(path, cs)
  {
    if path == "quickjs.c" || path == "test262.conf" || path == "test262_errors.txt" { PlainName(path); }
    if PinnedPath(path) && "tests/" <= path { TestsComponents(path); }
    if cs: seq<string> :| BelowTests(path, cs) { TestsPrefix(path, cs); }
  }

  // ------------------------------------------------------- evidence lists

  /** Evidence is present, every item denotes a pinned reference, and none is repeated. */
  predicate EvidenceOk(items: seq<string>) {
    && items != [] && (forall i :: 0 <= i < |items| ==> Parse(items[i]).Some?)
    && forall i, j :: 0 <= i < j < |items| ==> Parse(items[i]) != Parse(items[j])
  }

  /** The loop over the items: `seen` are the references of the first items, all different. */
  ghost predicate Collected(parse: string -> Option<Reference>, items: seq<string>, seen: set<Reference>) {
    && (forall j :: 0 <= j < |items| ==> parse(items[j]).Some? && parse(items[j]).value in seen)
    && (forall r :: r in seen ==> exists j :: 0 <= j < |items| && parse(items[j]) == Some(r))
    && forall j, k :: 0 <= j < k < |items| ==> parse(items[j]) != parse(items[k])
  }

  lemma CollectOneMore(parse: string -> Option<Reference>, items: seq<string>, seen: set<Reference>, v: string)
    requires Collected(parse, items, seen)
    requires parse(v).Some? && parse(v).value !in seen
    ensures Collected(parse, items + [v], seen + {parse(v).value})
  {
    var all := items + [v];
    assert all[|items|] == v && forall j :: 0 <= j < |items| ==> all[j] == items[j];
    forall r | r in seen ensures exists j :: 0 <= j < |all| && parse(all[j]) == Some(r) {
      var j :| 0 <= j < |items| && parse(items[j]) == Some(r);
      assert parse(all[j]) == Some(r);
    }
  }

  lemma RepeatedRefuted(items: seq<string>, i: nat, seen: set<Reference>)
    requires i < |items| && Collected(Parse, items[..i], seen)
    requires Parse(items[i]).Some? && Parse(items[i]).value in seen
    ensures !EvidenceOk(items)
  {
    var j :| 0 <= j < i && Parse(items[..i][j]) == Parse(items[i]);
    assert items[..i][j] == items[j];
  }

  lemma CollectedAll(items: seq<string>, seen: set<Reference>)
    requires items != [] && Collected(Parse, items, seen)
    ensures EvidenceOk(items)
  {}

  /** Accepts exactly the lists of distinct pinned references. */
  method ValidateEvidence(items: seq<string>) returns (ok: bool)
    ensures ok <==> EvidenceOk(items)
  {
    if items == [] {
      return false;
    }
    var unique: set<Reference> := {};
    for i := 0 to |items|
      invariant Collected(Parse, items[..i], unique)
    {
      var reference := Parse(items[i]);
      if reference.None? {
        return false;
      }
      if reference.value in unique {
        RepeatedRefuted(items, i, unique);
        return false;
      }
      CollectOneMore(Parse, items[..i], unique, items[i]);
      Finite.TakeOneMore(items, i);
      unique := unique + {reference.value};
    }
    assert items[..|items|] == items;
    CollectedAll(items, unique);
    return true;
  }
}
