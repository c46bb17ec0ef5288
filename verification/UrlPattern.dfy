/** Matching request paths against patterns like "/v4/:project/registry/:id": two cursors, one in the pattern
    and one in the path, and a value captured for every parameter. */
module UrlPattern {
  import opened Options

  const NUL: char := '\0'

  predicate IsAlpha(c: char) {
    'a' <= c <= 'z' || 'A' <= c <= 'Z' || c == '_'
  }

  predicate IsDigit(c: char) {
    '0' <= c <= '9'
  }

  predicate IsAlnum(c: char) {
    IsAlpha(c) || IsDigit(c)
  }

  predicate MatchParticipial(c: char) {
    c != '/'
  }

  /** The end of the longest run of accepted characters from `i` on. */
  function RunEnd(s: string, f: char -> bool, exclude: char, i: nat): (j: nat)
    requires i <= |s|
    ensures i <= j <= |s|
    ensures forall k :: i <= k < j ==> f(s[k]) && s[k] != exclude
    ensures j < |s| ==> !f(s[j]) || s[j] == exclude
    decreases |s| - i
  {
    if i < |s| && f(s[i]) && s[i] != exclude then RunEnd(s, f, exclude, i + 1) else i
  }

  /** The character at a position, or NUL behind the end. */
  function CharAt(s: string, i: nat): char {
    if i < |s| then s[i] else NUL
  }

  method Match(s: string, f: char -> bool, exclude: char, i: nat) returns (matched: string, next: char, j: nat)
    requires i <= |s|
    ensures j == RunEnd(s, f, exclude, i) && matched == s[i..j] && next == CharAt(s, j)
  {
    j := i;
    while j < |s| && f(s[j]) && s[j] != exclude
      invariant i <= j <= |s| && RunEnd(s, f, exclude, i) == RunEnd(s, f, exclude, j)
    {
      j := j + 1;
    }
    next := NUL;
    if j < |s| {
      next := s[j];
    }
    matched := s[i..j];
  }

  /** The end of the parameter whose ":" is at `j`. */
  function NameEnd(p: string, j: nat): nat
    requires j < |p|
  {
    RunEnd(p, IsAlnum, NUL, j + 1)
  }

  function ValueEnd(path: string, next: char, i: nat): nat
    requires i <= |path|
  {
    RunEnd(path, MatchParticipial, next, i)
  }

  /** A pattern other than "/" that ends in "/" also matches longer paths. */
  predicate MatchesLonger(p: string) {
    p != "/" && |p| > 0 && p[|p| - 1] == '/'
  }

  /** The values that matching from the two cursors on captures. */
  function Captures(p: string, path: string, j: nat, i: nat): Option<seq<string>>
    requires j <= |p| && i <= |path|
    decreases |p| - j
  {
    if i == |path| then (if j == |p| then Some([]) else None)
    else if j == |p| then (if MatchesLonger(p) then Some([]) else None)
    else if p[j] == ':' then
      var e := NameEnd(p, j);
      var k := ValueEnd(path, CharAt(p, e), i);
      var rest := Captures(p, path, e, k);
      if rest.None? then None else Some([path[i..k]] + rest.value)
    else if path[i] == p[j] then Captures(p, path, j + 1, i + 1)
    else None
  }

  /** The query string for the parameters from `j` on; `escape` is the escaping of names and values. */
  function Query(escape: string -> string, p: string, j: nat, values: seq<string>): string
    requires j <= |p|
    decreases |p| - j
  {
    if j == |p| then ""
    else if p[j] != ':' then Query(escape, p, j + 1, values)
    else if values == [] then ""
    else
      var e := NameEnd(p, j);
      (escape(p[j..e]) + "=" + escape(values[0]) + "&") + Query(escape, p, e, values[1..])
  }

  /** The query string of a match. */
  function Answer(escape: string -> string, p: string, path: string, j: nat, i: nat): Option<string>
    requires j <= |p| && i <= |path|
  {
    match Captures(p, path, j, i)
    case None => None
    case Some(values) => Some(Query(escape, p, j, values))
  }

  lemma NoValues(escape: string -> string, p: string, path: string, j: nat, i: nat)
    requires j <= |p| && i <= |path| && (j == |p| || i == |path|)
    ensures Answer(escape, p, path, j, i) ==
      if j == |p| && (i == |path| || MatchesLonger(p)) then Some("") else None
  {
  }

  lemma {:induction false} OneValue(escape: string -> string, p: string, path: string, j: nat, i: nat)
    requires j < |p| && i < |path| && p[j] == ':'
    ensures var e := NameEnd(p, j);
      var k := ValueEnd(path, CharAt(p, e), i);
      var rest := Answer(escape, p, path, e, k);
      Answer(escape, p, path, j, i) ==
        if rest.None? then None
        else Some((escape(p[j..e]) + "=" + escape(path[i..k]) + "&") + rest.value)
  {
    var e := NameEnd(p, j);
    var k := ValueEnd(path, CharAt(p, e), i);
    if Captures(p, path, e, k).Some? {
      var rest := Captures(p, path, e, k).value;
      assert ([path[i..k]] + rest)[1..] == rest;
    }
  }

  function Continued(query: string, rest: Option<string>): Option<string> {
    if rest.None? then None else Some(query + rest.value)
  }

  lemma Join3(a: string, b: string, rest: Option<string>)
    ensures Continued(a + b, rest) == Continued(a, Continued(b, rest))
  {
    if rest.Some? {
      assert (a + b) + rest.value == a + (b + rest.value);
    }
  }

  method Try(p: string, path: string, escape: string -> string) returns (r: Option<string>)
    ensures r == Answer(escape, p, path, 0, 0)
  {
    var i, j, query := 0, 0, "";
    ghost var total := Answer(escape, p, path, 0, 0);
    assert total.Some? ==> "" + total.value == total.value;
    while i < |path|
      invariant 0 <= i <= |path| && 0 <= j <= |p|
      invariant total == Continued(query, Answer(escape, p, path, j, i))
      decreases |p| - j
    {
      if j >= |p| {
        NoValues(escape, p, path, j, i);
        assert query + "" == query;
        if p != "/" && |p| > 0 && p[|p| - 1] == '/' {
          return Some(query);
        }
        return None;
      } else if p[j] == ':' {
        OneValue(escape, p, path, j, i);
        var o := j;
        var _, nextc, e := Match(p, IsAlnum, NUL, j + 1);
        var val, _, k := Match(path, MatchParticipial, nextc, i);
        var pair := escape(p[o..e]) + "=" + escape(val) + "&";
        Join3(query, pair, Answer(escape, p, path, e, k));
        query := query + pair;
        i, j := k, e;
      } else if path[i] == p[j] {
        i, j := i + 1, j + 1;
      } else {
        return None;
      }
    }
    NoValues(escape, p, path, j, i);
    assert query + "" == query;
    if j != |p| {
      return None;
    }
    return Some(query);
  }

  // ---------------------------------------------------------------- what a match means

  /** The pattern from `j` on with its parameters replaced by values. */
  function Fill(p: string, j: nat, values: seq<string>): string
    requires j <= |p|
    decreases |p| - j
  {
    if j == |p| then ""
    else if p[j] == ':' then
      if values == [] then "" else values[0] + Fill(p, NameEnd(p, j), values[1..])
    else [p[j]] + Fill(p, j + 1, values)
  }

  predicate Free(s: string, c: char) {
    c !in s
  }

  /** One value per parameter, free of "/" and of the character that follows the parameter in the pattern;
      a value at the end of the pattern is free of NUL and not empty. */
  predicate Fits(p: string, j: nat, values: seq<string>)
    requires j <= |p|
    decreases |p| - j
  {
    if j == |p| then values == []
    else if p[j] == ':' then
      var e := NameEnd(p, j);
      && values != []
      && Free(values[0], '/') && Free(values[0], CharAt(p, e))
      && (e == |p| ==> values[0] != "")
      && Fits(p, e, values[1..])
    else Fits(p, j + 1, values)
  }

  /** The text is the filled pattern or, for a pattern that matches longer paths, continues it. */
  predicate Reaches(p: string, text: string, filled: string) {
    text == filled || (MatchesLonger(p) && filled <= text)
  }

  lemma NameEndsPattern(p: string, j: nat)
    requires j < |p| && p[j] == ':' && NameEnd(p, j) == |p|
    ensures !MatchesLonger(p)
  {
    assert p[|p| - 1] == ':' || IsAlnum(p[|p| - 1]);
  }

  /** A match is sound: the captured values fit, and putting them back gives the path, or a prefix of it where
      the pattern allows longer paths. */
  lemma {:induction false} MatchIsSound(p: string, path: string, j: nat, i: nat)
    requires j <= |p| && i <= |path| && Captures(p, path, j, i).Some?
    ensures var values := Captures(p, path, j, i).value;
      Fits(p, j, values) && Reaches(p, path[i..], Fill(p, j, values))
    decreases |p| - j
  {
    if i < |path| && j < |p| {
      if p[j] == ':' {
        var e := NameEnd(p, j);
        var k := ValueEnd(path, CharAt(p, e), i);
        MatchIsSound(p, path, e, k);
        var rest := Captures(p, path, e, k).value;
        ValueFits(path, CharAt(p, e), i);
        var values := [path[i..k]] + rest;
        assert values[1..] == rest;
        assert path[i..] == path[i..k] + path[k..];
        if e == |p| {
          NameEndsPattern(p, j);
        }
      } else {
        MatchIsSound(p, path, j + 1, i + 1);
        assert path[i..] == [path[i]] + path[i + 1..];
      }
    }
  }

  lemma ValueFits(path: string, next: char, i: nat)
    requires i <= |path|
    ensures Free(path[i..ValueEnd(path, next, i)], '/') && Free(path[i..ValueEnd(path, next, i)], next)
  {
  }

  /** No parameter is followed directly by another. */
  predicate Separated(p: string, j: nat)
    requires j <= |p|
    decreases |p| - j
  {
    if j == |p| then true
    else if p[j] == ':' then CharAt(p, NameEnd(p, j)) != ':' && Separated(p, NameEnd(p, j))
    else Separated(p, j + 1)
  }

  lemma {:induction false} RunEndUnique(s: string, f: char -> bool, exclude: char, i: nat, j: nat)
    requires i <= j <= |s| && (forall k :: i <= k < j ==> f(s[k]) && s[k] != exclude)
    requires j < |s| ==> !f(s[j]) || s[j] == exclude
    ensures RunEnd(s, f, exclude, i) == j
    decreases j - i
  {
    if i < j {
      RunEndUnique(s, f, exclude, i + 1, j);
    }
  }

  /** A match is complete for a pattern without adjacent parameters: every fitting choice of values is captured
      again from the path it produces. */
  lemma {:induction false} MatchIsComplete(p: string, path: string, j: nat, i: nat, values: seq<string>)
    requires j <= |p| && i <= |path| && Separated(p, j)
    requires Fits(p, j, values) && Reaches(p, path[i..], Fill(p, j, values))
    ensures Captures(p, path, j, i) == Some(values)
    decreases |p| - j
  {
    if j == |p| {
    } else if p[j] == ':' {
      ParameterIsCaptured(p, path, j, i, values);
      var e := NameEnd(p, j);
      var k := i + |values[0]|;
      MatchIsComplete(p, path, e, k, values[1..]);
      assert values == [values[0]] + values[1..];
    } else {
      assert path[i] == p[j];
      assert path[i..][1..] == path[i + 1..];
      assert ([p[j]] + Fill(p, j + 1, values))[1..] == Fill(p, j + 1, values);
      MatchIsComplete(p, path, j + 1, i + 1, values);
    }
  }

  /** A path that starts with a value and a rest, taken apart. */
  lemma TakeApart(path: string, i: nat, v: string, rest: string)
    requires i <= |path| && v + rest <= path[i..]
    ensures var k := i + |v|;
      && k <= |path| && path[i..k] == v && rest <= path[k..]
      && (forall m :: i <= m < k ==> path[m] == v[m - i])
      && (rest != "" ==> k < |path| && path[k] == rest[0])
      && (path[i..] == v + rest ==> path[k..] == rest)
  {
    var k := i + |v|;
    assert path[i..] == path[i..k] + path[k..];
    assert (v + rest)[..|v|] == v && (v + rest)[|v|..] == rest;
    assert path[i..k] == path[i..][..|v|] && path[k..] == path[i..][|v|..];
    assert rest == path[k..][..|rest|];
  }

  /** A value free of "/" and of the next character ends where the rest begins, or at the end of the path. */
  lemma ValueIsCaptured(path: string, i: nat, v: string, rest: string, next: char)
    requires i <= |path| && v + rest <= path[i..] && Free(v, '/') && Free(v, next)
    requires if rest == "" then path[i..] == v else rest[0] == next
    ensures i + |v| <= |path| && ValueEnd(path, next, i) == i + |v|
  {
    TakeApart(path, i, v, rest);
    var k := i + |v|;
    forall m | i <= m < k ensures path[m] != '/' && path[m] != next {
      assert path[m] == v[m - i];
    }
    RunEndUnique(path, MatchParticipial, next, i, k);
  }

  lemma {:induction false} FillStarts(p: string, j: nat, values: seq<string>)
    requires j <= |p| && (j < |p| ==> p[j] != ':')
    ensures if j == |p| then Fill(p, j, values) == "" else Fill(p, j, values) != "" && Fill(p, j, values)[0] == CharAt(p, j)
  {
  }

  lemma {:induction false} ParameterIsCaptured(p: string, path: string, j: nat, i: nat, values: seq<string>)
    requires j < |p| && i <= |path| && p[j] == ':' && Separated(p, j)
    requires Fits(p, j, values) && Reaches(p, path[i..], Fill(p, j, values))
    ensures var e, k := NameEnd(p, j), i + |values[0]|;
      && i < |path| && k <= |path|
      && ValueEnd(path, CharAt(p, e), i) == k && path[i..k] == values[0]
      && Reaches(p, path[k..], Fill(p, e, values[1..]))
  {
    var e, v := NameEnd(p, j), values[0];
    var rest := Fill(p, e, values[1..]);
    if e == |p| {
      NameEndsPattern(p, j);
    }
    FillStarts(p, e, values[1..]);
    FilledPath(p, path, i, v, rest);
    ValueIsCaptured(path, i, v, rest, CharAt(p, e));
    TakeApart(path, i, v, rest);
  }

  lemma FilledPath(p: string, path: string, i: nat, v: string, rest: string)
    requires i <= |path| && Reaches(p, path[i..], v + rest)
    ensures v + rest <= path[i..] && (v + rest != "" ==> i < |path|)
    ensures !MatchesLonger(p) && rest == "" ==> path[i..] == v
  {
    assert v + "" == v;
  }

  /** For a pattern without adjacent parameters, a path matches with certain values exactly when these fit
      and the path is the pattern filled with them, or longer where that is allowed. */
  lemma MatchExact(p: string, path: string, values: seq<string>)
    requires Separated(p, 0)
    ensures Captures(p, path, 0, 0) == Some(values) <==> Fits(p, 0, values) && Reaches(p, path, Fill(p, 0, values))
  {
    assert path[0..] == path;
    if Captures(p, path, 0, 0) == Some(values) {
      MatchIsSound(p, path, 0, 0);
    }
    if Fits(p, 0, values) && Reaches(p, path, Fill(p, 0, values)) {
      MatchIsComplete(p, path, 0, 0, values);
    }
  }

  /** A path that goes on behind the filled pattern matches exactly when the pattern ends in "/" and is not "/" itself. */
  lemma LongerExact(p: string, values: seq<string>, more: string)
    requires Separated(p, 0) && Fits(p, 0, values) && more != ""
    ensures Captures(p, Fill(p, 0, values) + more, 0, 0) == Some(values) <==> |p| > 1 && p[|p| - 1] == '/'
  {
    var filled := Fill(p, 0, values);
    MatchExact(p, filled + more, values);
    assert |filled + more| > |filled| && filled <= filled + more;
    assert p == "/" <==> |p| == 1 && p[0] == '/';
  }

  lemma {:induction false} FitsFree(p: string, j: nat, values: seq<string>)
    requires j <= |p| && Fits(p, j, values)
    ensures forall v :: v in values ==> Free(v, '/')
    decreases |p| - j
  {
    if j < |p| {
      if p[j] == ':' {
        FitsFree(p, NameEnd(p, j), values[1..]);
        assert values == [values[0]] + values[1..];
      } else {
        FitsFree(p, j + 1, values);
      }
    }
  }

  /** Whatever a route captures is free of "/". */
  lemma CapturedIsFree(p: string, path: string)
    requires Captures(p, path, 0, 0).Some?
    ensures forall v :: v in Captures(p, path, 0, 0).value ==> Free(v, '/')
  {
    MatchIsSound(p, path, 0, 0);
    FitsFree(p, 0, Captures(p, path, 0, 0).value);
  }

  // ---------------------------------------------------------------- reading the query back

  /** The names of the parameters from `j` on, with their ":". */
  function ParamNames(p: string, j: nat): seq<string>
    requires j <= |p|
    decreases |p| - j
  {
    if j == |p| then []
    else if p[j] == ':' then [p[j..NameEnd(p, j)]] + ParamNames(p, NameEnd(p, j))
    else ParamNames(p, j + 1)
  }

  datatype Param = Param(name: string, value: string)

  function Params(names: seq<string>, values: seq<string>): seq<Param> {
    if names == [] || values == [] then [] else [Param(names[0], values[0])] + Params(names[1..], values[1..])
  }

  predicate Any(c: char) {
    true
  }

  /** The text in front of the first `c`, and what is behind it. */
  function Before(s: string, c: char): string {
    s[..RunEnd(s, Any, c, 0)]
  }

  function Behind(s: string, c: char): (r: string)
    ensures s != "" ==> |r| < |s|
  {
    var i := RunEnd(s, Any, c, 0);
    if i < |s| then s[i + 1..] else ""
  }

  /** How a query is read: pairs end at "&", names at "=". */
  function ParseQuery(unescape: string -> string, q: string): seq<Param>
    decreases |q|
  {
    if q == "" then []
    else
      var pair := Before(q, '&');
      [Param(unescape(Before(pair, '=')), unescape(Behind(pair, '=')))] + ParseQuery(unescape, Behind(q, '&'))
  }

  lemma CutAt(a: string, c: char, b: string)
    requires Free(a, c)
    ensures Before(a + [c] + b, c) == a && Behind(a + [c] + b, c) == b
  {
    var s := a + [c] + b;
    assert forall k :: 0 <= k < |a| ==> s[k] == a[k];
    RunEndUnique(s, Any, c, 0, |a|);
  }

  /** Escaping can be undone and hides the two separators. */
  ghost predicate Escapes(escape: string -> string, unescape: string -> string) {
    forall s :: unescape(escape(s)) == s && Free(escape(s), '&') && Free(escape(s), '=')
  }

  lemma OnePair(escape: string -> string, unescape: string -> string, name: string, value: string, rest: string)
    requires Escapes(escape, unescape)
    ensures ParseQuery(unescape, (escape(name) + "=" + escape(value) + "&") + rest) ==
      [Param(name, value)] + ParseQuery(unescape, rest)
  {
    var a, b := escape(name), escape(value);
    var pair := a + ['='] + b;
    assert (a + "=" + b + "&") + rest == pair + ['&'] + rest;
    assert Free(a, '&') && Free(b, '&') && Free(a, '=');
    CutAt(pair, '&', rest);
    CutAt(a, '=', b);
  }

  lemma {:induction false} QueryReadsBack(escape: string -> string, unescape: string -> string, p: string, j: nat,
                                          values: seq<string>)
    requires Escapes(escape, unescape) && j <= |p| && Fits(p, j, values)
    ensures |ParamNames(p, j)| == |values|
    ensures ParseQuery(unescape, Query(escape, p, j, values)) == Params(ParamNames(p, j), values)
    decreases |p| - j
  {
    if j < |p| {
      if p[j] == ':' {
        var e := NameEnd(p, j);
        QueryReadsBack(escape, unescape, p, e, values[1..]);
        OnePair(escape, unescape, p[j..e], values[0], Query(escape, p, e, values[1..]));
        assert ParamNames(p, j)[1..] == ParamNames(p, e);
      } else {
        QueryReadsBack(escape, unescape, p, j + 1, values);
      }
    }
  }

  /** Round trip: reading the query of a match gives one value for every parameter name of the pattern, in order, and
      these values put back into the pattern give the path, or a prefix of it where the pattern allows longer paths. */
  lemma MatchRoundTrip(escape: string -> string, unescape: string -> string, p: string, path: string)
    requires Escapes(escape, unescape) && Answer(escape, p, path, 0, 0).Some?
    ensures var values := Captures(p, path, 0, 0).value;
      && |values| == |ParamNames(p, 0)|
      && ParseQuery(unescape, Answer(escape, p, path, 0, 0).value) == Params(ParamNames(p, 0), values)
      && Reaches(p, path, Fill(p, 0, values))
  {
    MatchIsSound(p, path, 0, 0);
    assert path[0..] == path;
    QueryReadsBack(escape, unescape, p, 0, Captures(p, path, 0, 0).value);
  }

  // ---------------------------------------------------------------- adjacent parameters

  /** The value "x" for every parameter. */
  function Exes(p: string, j: nat): seq<string>
    requires j <= |p|
    decreases |p| - j
  {
    if j == |p| then [] else if p[j] == ':' then ["x"] + Exes(p, NameEnd(p, j)) else Exes(p, j + 1)
  }

  lemma {:induction false} ExesFit(p: string, j: nat)
    requires j <= |p|
    ensures Fits(p, j, Exes(p, j))
    decreases |p| - j
  {
    if j < |p| {
      if p[j] == ':' {
        var e := NameEnd(p, j);
        ExesFit(p, e);
        assert (["x"] + Exes(p, e))[1..] == Exes(p, e);
        assert CharAt(p, e) != 'x';
      } else {
        ExesFit(p, j + 1);
      }
    }
  }

  lemma {:induction false} ExesNotCaptured(p: string, path: string, j: nat, i: nat)
    requires j <= |p| && i <= |path| && !Separated(p, j) && path[i..] == Fill(p, j, Exes(p, j))
    ensures Captures(p, path, j, i) != Some(Exes(p, j))
    decreases |p| - j
  {
    var xs := Exes(p, j);
    if p[j] == ':' {
      var e := NameEnd(p, j);
      var rest := Exes(p, e);
      assert xs[1..] == rest;
      assert path[i..] == "x" + Fill(p, e, rest);
      assert path[i] == 'x' && path[i + 1..] == path[i..][1..] == Fill(p, e, rest);
      if CharAt(p, e) == ':' {
        assert Fill(p, e, rest)[0] == 'x';
        assert path[i + 1] == path[i + 1..][0] == 'x';
        var k := ValueEnd(path, ':', i);
        TwoInRun(path, i);
        assert |path[i..k]| >= 2;
      } else {
        assert e < |p| && Fill(p, e, rest)[0] == p[e];
        assert path[i + 1] == path[i + 1..][0] == p[e];
        RunEndUnique(path, MatchParticipial, CharAt(p, e), i, i + 1);
        ExesNotCaptured(p, path, e, i + 1);
      }
    } else {
      assert path[i] == path[i..][0] == p[j];
      assert path[i + 1..] == path[i..][1..] == Fill(p, j + 1, xs);
      ExesNotCaptured(p, path, j + 1, i + 1);
    }
  }

  lemma TwoInRun(path: string, i: nat)
    requires i + 1 < |path| && path[i] == 'x' && path[i + 1] == 'x'
    ensures ValueEnd(path, ':', i) >= i + 2
  {
    assert ValueEnd(path, ':', i) == ValueEnd(path, ':', i + 1) == ValueEnd(path, ':', i + 2);
  }

  /** Matching captures every fitting choice of values exactly for the patterns without adjacent parameters:
      of two adjacent ones the first takes the text of both. */
  lemma CompleteOnlyIfSeparated(p: string)
    ensures Separated(p, 0) <==>
      forall values :: Fits(p, 0, values) ==> Captures(p, Fill(p, 0, values), 0, 0) == Some(values)
  {
    if Separated(p, 0) {
      forall values | Fits(p, 0, values) ensures Captures(p, Fill(p, 0, values), 0, 0) == Some(values) {
        MatchExact(p, Fill(p, 0, values), values);
      }
    } else {
      var path := Fill(p, 0, Exes(p, 0));
      assert path[0..] == path;
      ExesFit(p, 0);
      ExesNotCaptured(p, path, 0, 0);
    }
  }
}
