/** Normalization of request paths before routing. */
module PathNormalization {
  import opened Wrappers

  datatype NormalizeError = PathEscapesRoot | InvalidUri

  /** `path.split('/')`: always at least one segment. */
  function Split(path: string): (segments: seq<string>)
    ensures |segments| >= 1
  {
    if path == "" then [""]
    else
      var rest := Split(path[1..]);
      if path[0] == '/' then [""] + rest
      else [[path[0]] + rest[0]] + rest[1..]
  }

  predicate Ordinary(segment: string) { segment != "" && segment != "." && segment != ".." }

  /** The stack after the segments, or nothing once ".." finds it empty. */
  function Resolve(stack: seq<string>, segments: seq<string>): Option<seq<string>>
    decreases |segments|
  {
    if segments == [] then Some(stack)
    else if segments[0] == "" || segments[0] == "." then Resolve(stack, segments[1..])
    else if segments[0] == ".." then
      if stack == [] then None else Resolve(stack[..|stack| - 1], segments[1..])
    else Resolve(stack + [segments[0]], segments[1..])
  }

  /** Every segment behind a slash. */
  function Join(stack: seq<string>): string {
    if stack == [] then "" else "/" + stack[0] + Join(stack[1..])
  }

  function Rendered(stack: seq<string>): string { if stack == [] then "/" else Join(stack) }

  function Normalized(path: string): Result<string, NormalizeError> {
    match Resolve([], Split(path))
    case None => Err(PathEscapesRoot)
    case Some(stack) => Ok(Rendered(stack))
  }

  lemma JoinStep(normalized: string, stack: seq<string>, i: nat)
    requires i < |stack|
    ensures normalized + Join(stack[i..]) == normalized + "/" + stack[i] + Join(stack[i + 1..])
  {
    assert stack[i..][0] == stack[i] && stack[i..][1..] == stack[i + 1..];
  }

  method NormalizePath(path: string) returns (r: Result<string, NormalizeError>)
    ensures r == Normalized(path)
  {
    hide Split;
    var stack: seq<string> := [];
    var segments := Split(path);
    for i := 0 to |segments|
      invariant Resolve(stack, segments[i..]) == Resolve([], segments)
    {
      var segment := segments[i];
      assert segments[i..][0] == segment && segments[i..][1..] == segments[i + 1..];
      if segment == "" || segment == "." {
        continue;
      } else if segment == ".." {
        if stack == [] { return Err(PathEscapesRoot); }
        stack := stack[..|stack| - 1];
      } else {
        stack := stack + [segment];
      }
    }
    if stack == [] { return Ok("/"); }
    var normalized := "";
    for i := 0 to |stack|
      invariant normalized + Join(stack[i..]) == Join(stack)
    {
      JoinStep(normalized, stack, i);
      normalized := normalized + "/" + stack[i];
    }
    assert normalized + "" == normalized;
    return Ok(normalized);
  }

  // ---------------------------------------------------------------------------
  // Strings and segments
  // ---------------------------------------------------------------------------

  lemma {:induction false} SegmentsHaveNoSlash(path: string)
    ensures forall i :: 0 <= i < |Split(path)| ==> '/' !in Split(path)[i]
  {
    if path != "" { SegmentsHaveNoSlash(path[1..]); }
  }

  lemma {:induction false} SplitAppend(a: string, b: string)
    ensures Split(a + "/" + b) == Split(a) + Split(b)
  {
    var path := a + "/" + b;
    if a == "" {
      assert path[1..] == b;
    } else {
      SplitAppend(a[1..], b);
      assert path[0] == a[0] && path[1..] == a[1..] + "/" + b;
      PrependSegment(a[0], Split(a[1..]), Split(b));
    }
  }

  /** Adding one character in front touches the first segment only. */
  lemma PrependSegment(c: char, x: seq<string>, y: seq<string>)
    requires |x| >= 1
    ensures [""] + (x + y) == ([""] + x) + y
    ensures [[c] + (x + y)[0]] + (x + y)[1..] == ([[c] + x[0]] + x[1..]) + y
  {
  }

  lemma {:induction false} SplitSegment(segment: string)
    requires '/' !in segment
    ensures Split(segment) == [segment]
  {
    if segment != "" {
      SplitSegment(segment[1..]);
      assert [segment[0]] + segment[1..] == segment;
    }
  }

  lemma SplitSlash(rest: string)
    ensures Split("/" + rest) == [""] + Split(rest)
  {
    assert ("/" + rest)[1..] == rest;
  }

  /** The joined path without its leading slash. */
  function Tail(stack: seq<string>): string
    requires stack != []
  {
    stack[0] + Join(stack[1..])
  }

  lemma JoinIsSlashTail(stack: seq<string>)
    requires stack != []
    ensures Join(stack) == "/" + Tail(stack)
  {
  }

  lemma {:induction false} SplitTail(stack: seq<string>)
    requires stack != [] && forall i :: 0 <= i < |stack| ==> '/' !in stack[i]
    ensures Split(Tail(stack)) == stack
  {
    var first, rest := stack[0], stack[1..];
    SplitSegment(first);
    if rest == [] {
      assert Tail(stack) == first;
    } else {
      SplitTail(rest);
      JoinIsSlashTail(rest);
      SplitAppend(first, Tail(rest));
      assert Tail(stack) == first + "/" + Tail(rest);
    }
  }

  lemma SplitJoin(stack: seq<string>)
    requires stack != [] && forall i :: 0 <= i < |stack| ==> '/' !in stack[i]
    ensures Split(Join(stack)) == [""] + stack
  {
    SplitTail(stack);
    JoinIsSlashTail(stack);
    SplitSlash(Tail(stack));
  }

  // ---------------------------------------------------------------------------
  // Meaning
  // ---------------------------------------------------------------------------

  lemma {:induction false} ResolveAppend(stack: seq<string>, a: seq<string>, b: seq<string>)
    ensures Resolve(stack, a + b) ==
            match Resolve(stack, a) case None => None case Some(s) => Resolve(s, b)
    decreases |a|
  {
    if a == [] {
      assert a + b == b;
    } else {
      assert (a + b)[1..] == a[1..] + b;
      if a[0] == "" || a[0] == "." {
        ResolveAppend(stack, a[1..], b);
      } else if a[0] == ".." {
        if stack != [] { ResolveAppend(stack[..|stack| - 1], a[1..], b); }
      } else {
        ResolveAppend(stack + [a[0]], a[1..], b);
      }
    }
  }

  predicate Clean(stack: seq<string>) {
    forall i :: 0 <= i < |stack| ==> Ordinary(stack[i]) && '/' !in stack[i]
  }

  /** Ordinary segments are all that is left, in their original order of writing. */
  lemma {:induction false} ResolveClean(stack: seq<string>, segments: seq<string>)
    requires Clean(stack) && forall i :: 0 <= i < |segments| ==> '/' !in segments[i]
    ensures Resolve(stack, segments).Some? ==> Clean(Resolve(stack, segments).value)
    decreases |segments|
  {
    if segments != [] {
      if segments[0] == "" || segments[0] == "." {
        ResolveClean(stack, segments[1..]);
      } else if segments[0] == ".." {
        if stack != [] { ResolveClean(stack[..|stack| - 1], segments[1..]); }
      } else {
        ResolveClean(stack + [segments[0]], segments[1..]);
      }
    }
  }

  lemma {:induction false} ResolveOrdinary(stack: seq<string>, segments: seq<string>)
    requires forall i :: 0 <= i < |segments| ==> Ordinary(segments[i])
    ensures Resolve(stack, segments) == Some(stack + segments)
    decreases |segments|
  {
    if segments == [] {
      assert stack + segments == stack;
    } else {
      ResolveOrdinary(stack + [segments[0]], segments[1..]);
      assert stack + [segments[0]] + segments[1..] == stack + segments;
    }
  }

  /** Ordinary segments less ".." segments. */
  function Depth(segments: seq<string>): int
    decreases |segments|
  {
    if segments == [] then 0
    else Depth(segments[..|segments| - 1])
         + (if segments[|segments| - 1] == ".." then -1 else if Ordinary(segments[|segments| - 1]) then 1 else 0)
  }

  ghost predicate StaysInside(segments: seq<string>) { forall n :: 0 <= n <= |segments| ==> Depth(segments[..n]) >= 0 }

  lemma {:induction false} ResolveDepth(segments: seq<string>)
    ensures Resolve([], segments).Some? <==> StaysInside(segments)
    ensures Resolve([], segments).Some? ==> |Resolve([], segments).value| == Depth(segments)
    decreases |segments|
  {
    if segments == [] {
    } else {
      var init, last := segments[..|segments| - 1], segments[|segments| - 1];
      ResolveDepth(init);
      ResolveAppend([], init, [last]);
      assert segments == init + [last];
      assert forall n :: 0 <= n < |segments| ==> segments[..n] == init[..n];
      assert segments[..|segments|] == segments && init[..|init|] == init;
      assert forall s: seq<string> :: s == [last] ==> s[1..] == [];
      assert [last][1..] == [];
      if StaysInside(init) {
        var s := Resolve([], init).value;
        assert Resolve(s, [last]).Some? <==> !(last == ".." && s == []);
        assert Depth(segments) == |s| + (if last == ".." then -1 else if Ordinary(last) then 1 else 0);
      } else {
        var n :| 0 <= n <= |init| && Depth(init[..n]) < 0;
        assert Depth(segments[..n]) < 0;
      }
    }
  }

  /** A path is rejected exactly when one of its prefixes climbs above the root. */
  lemma RejectedExactlyWhenEscaping(path: string)
    ensures Normalized(path) == Err(PathEscapesRoot) <==> !StaysInside(Split(path))
    ensures Normalized(path).Ok? <==> StaysInside(Split(path))
  {
    ResolveDepth(Split(path));
  }

  lemma ResolveRendered(stack: seq<string>)
    requires Clean(stack)
    ensures Resolve([], Split(Rendered(stack))) == Some(stack)
  {
    ResolveOrdinary([], stack);
    assert [] + stack == stack;
    if stack == [] {
      SplitSlash("");
      assert "/" + "" == "/" && ["", ""][1..] == [""] && [""][1..] == [];
    } else {
      SplitJoin(stack);
      assert ([""] + stack)[1..] == stack;
    }
  }

  /** A normal form: "/" alone, or ordinary segments each behind one slash. */
  ghost predicate Canonical(path: string) { exists stack :: Clean(stack) && path == Rendered(stack) }

  /** Accepted paths come out canonical, and exactly the canonical paths are left as they are. */
  lemma NormalFormsAreFixedPoints(path: string)
    ensures Normalized(path).Ok? ==> Canonical(Normalized(path).value)
    ensures Normalized(path) == Ok(path) <==> Canonical(path)
  {
    SegmentsHaveNoSlash(path);
    ResolveClean([], Split(path));
    if Canonical(path) {
      var stack :| Clean(stack) && path == Rendered(stack);
      ResolveRendered(stack);
    }
  }

  lemma NormalizationIsIdempotent(path: string)
    requires Normalized(path).Ok?
    ensures Normalized(Normalized(path).value) == Normalized(path)
  {
    NormalFormsAreFixedPoints(path);
    NormalFormsAreFixedPoints(Normalized(path).value);
  }

  /** A normalized directory can stand for the original in front of any further path. */
  lemma NormalizationIsCompositional(a: string, b: string)
    requires Normalized(a).Ok?
    ensures Normalized(a + "/" + b) == Normalized(Normalized(a).value + "/" + b)
  {
    var stack := Resolve([], Split(a)).value;
    SegmentsHaveNoSlash(a);
    ResolveClean([], Split(a));
    ResolveRendered(stack);
    SplitAppend(a, b);
    SplitAppend(Rendered(stack), b);
    ResolveAppend([], Split(a), Split(b));
    ResolveAppend([], Split(Rendered(stack)), Split(b));
  }

  // ---------------------------------------------------------------------------
  // An independent account: cancelling segments
  // ---------------------------------------------------------------------------

  /** What may be cut out of a path: an empty or "." segment, or a segment and the ".." that
      undoes it. */
  predicate Cancels(middle: seq<string>) {
    || middle == [""] || middle == ["."]
    || (|middle| == 2 && Ordinary(middle[0]) && middle[1] == "..")
  }

  predicate Cut(path: seq<string>, shorter: seq<string>, before: seq<string>, middle: seq<string>, after: seq<string>) {
    path == before + middle + after && shorter == before + after && Cancels(middle)
  }

  /** `n` cuts, anywhere and in any order, turn one path into the other. */
  ghost predicate Reduces(path: seq<string>, result: seq<string>, n: nat)
    decreases n
  {
    if n == 0 then path == result
    else exists shorter, before, middle, after ::
      Cut(path, shorter, before, middle, after) && Reduces(shorter, result, n - 1)
  }

  /** No cut changes what a path resolves to. */
  lemma CutPreservesMeaning(
      path: seq<string>, shorter: seq<string>, before: seq<string>, middle: seq<string>, after: seq<string>)
    requires Cut(path, shorter, before, middle, after)
    ensures Resolve([], path) == Resolve([], shorter)
  {
    ResolveAppend([], before + middle, after);
    ResolveAppend([], before, middle);
    ResolveAppend([], before, after);
    if Resolve([], before).Some? {
      var s := Resolve([], before).value;
      if |middle| == 1 {
        assert middle[1..] == [];
      } else {
        var up := middle[1..];
        assert up[0] == ".." && up[1..] == [];
        assert (s + [middle[0]])[..|s|] == s;
        assert Resolve(s + [middle[0]], up) == Resolve(s, []);
      }
    }
  }

  lemma {:induction false} ReductionPreservesMeaning(path: seq<string>, result: seq<string>, n: nat)
    requires Reduces(path, result, n)
    ensures Resolve([], path) == Resolve([], result)
    decreases n
  {
    if n > 0 {
      var shorter, before, middle, after :|
        Cut(path, shorter, before, middle, after) && Reduces(shorter, result, n - 1);
      CutPreservesMeaning(path, shorter, before, middle, after);
      ReductionPreservesMeaning(shorter, result, n - 1);
    }
  }

  /** Resolving is itself a sequence of cuts. */
  lemma {:induction false} ResolvingReduces(stack: seq<string>, segments: seq<string>) returns (n: nat)
    requires (forall i :: 0 <= i < |stack| ==> Ordinary(stack[i])) && Resolve(stack, segments).Some?
    ensures Reduces(stack + segments, Resolve(stack, segments).value, n)
    decreases |segments|
  {
    if segments == [] {
      assert stack + segments == stack;
      return 0;
    }
    var rest := segments[1..];
    if segments[0] == "" || segments[0] == "." {
      n := ResolvingReduces(stack, rest);
      assert Cut(stack + segments, stack + rest, stack, [segments[0]], rest);
      n := n + 1;
    } else if segments[0] == ".." {
      var below, top := stack[..|stack| - 1], stack[|stack| - 1];
      n := ResolvingReduces(below, rest);
      assert Cut(stack + segments, below + rest, below, [top, ".."], rest);
      n := n + 1;
    } else {
      n := ResolvingReduces(stack + [segments[0]], rest);
      assert stack + segments == stack + [segments[0]] + rest;
    }
  }

  /** The normal path is the only one that cancellation can end in: a path normalizes to the given
      ordinary segments if and only if cutting, in whatever order, can reduce it to them. */
  lemma NormalizationIsCancellation(path: string, stack: seq<string>)
    requires Clean(stack)
    ensures Normalized(path) == Ok(Rendered(stack)) <==> exists n: nat :: Reduces(Split(path), stack, n)
  {
    ResolveOrdinary([], stack);
    assert [] + stack == stack;
    if exists n: nat :: Reduces(Split(path), stack, n) {
      var n: nat :| Reduces(Split(path), stack, n);
      ReductionPreservesMeaning(Split(path), stack, n);
    }
    if Normalized(path) == Ok(Rendered(stack)) {
      SegmentsHaveNoSlash(path);
      ResolveClean([], Split(path));
      ResolveRendered(Resolve([], Split(path)).value);
      ResolveRendered(stack);
      var n := ResolvingReduces([], Split(path));
      assert [] + Split(path) == Split(path);
      assert Reduces(Split(path), stack, n);
    }
  }

  // ---------------------------------------------------------------------------
  // Request URIs
  // ---------------------------------------------------------------------------

  /** The parts of a URI.  The path is empty only in authority form, as in `CONNECT example.com:443`. */
  datatype Uri = Uri(scheme: Option<string>, authority: Option<string>, path: string, query: Option<string>)

  function PathAndQuery(path: string, query: Option<string>): string {
    if query.Some? then path + "?" + query.value else path
  }

  /** Reading a path and query back: the first question mark ends the path.  `allowed` stands for the
      characters the URI library accepts. */
  function ParsePathAndQuery(text: string, allowed: char -> bool): Option<(string, Option<string>)> {
    if text == "" then Some(("", None))
    else if !allowed(text[0]) then None
    else if text[0] == '?' then
      if forall i :: 0 <= i < |text| ==> allowed(text[i]) then Some(("", Some(text[1..]))) else None
    else
      match ParsePathAndQuery(text[1..], allowed)
      case None => None
      case Some((path, query)) => Some(([text[0]] + path, query))
  }

  /** `Uri::from_parts`, given a path: a scheme needs an authority, and an authority a scheme. */
  function FromParts(parts: Uri): Option<Uri> {
    if parts.scheme.Some? && parts.authority.None? then None
    else if parts.scheme.None? && parts.authority.Some? then None
    else Some(parts)
  }

  predicate WellFormed(uri: Uri, allowed: char -> bool) {
    && (forall i :: 0 <= i < |uri.path| ==> allowed(uri.path[i]) && uri.path[i] != '?')
    && (uri.query.Some? ==> forall i :: 0 <= i < |uri.query.value| ==> allowed(uri.query.value[i]))
  }

  /** `None` when the path is already normal, otherwise the URI with the path replaced. */
  method NormalizeRequestUri(uri: Uri, allowed: char -> bool) returns (r: Result<Option<Uri>, NormalizeError>)
    ensures r == NormalizedUri(uri, allowed)
  {
    var normalized := NormalizePath(uri.path);
    if normalized.Err? { return Err(normalized.error); }
    if normalized.value == uri.path { return Ok(None); }
    var text := normalized.value;
    if uri.query.Some? { text := text + "?" + uri.query.value; }
    var parsed := ParsePathAndQuery(text, allowed);
    if parsed.None? { return Err(InvalidUri); }
    var parts := uri;
    parts := parts.(path := parsed.value.0, query := parsed.value.1);
    var rebuilt := FromParts(parts);
    if rebuilt.None? { return Err(InvalidUri); }
    return Ok(rebuilt);
  }

  function NormalizedUri(uri: Uri, allowed: char -> bool): Result<Option<Uri>, NormalizeError> {
    match Normalized(uri.path)
    case Err(e) => Err(e)
    case Ok(path) =>
      if path == uri.path then Ok(None)
      else
        match ParsePathAndQuery(PathAndQuery(path, uri.query), allowed)
        case None => Err(InvalidUri)
        case Some((path', query)) =>
          match FromParts(uri.(path := path', query := query))
          case None => Err(InvalidUri)
          case Some(rebuilt) => Ok(Some(rebuilt))
  }

  lemma {:induction false} ParseUndoesPrint(path: string, query: Option<string>, allowed: char -> bool)
    requires WellFormed(Uri(None, None, path, query), allowed) && allowed('?')
    ensures ParsePathAndQuery(PathAndQuery(path, query), allowed) == Some((path, query))
  {
    var text := PathAndQuery(path, query);
    if path == "" {
      if query.Some? { assert text[1..] == query.value; }
    } else {
      ParseUndoesPrint(path[1..], query, allowed);
      assert text[1..] == PathAndQuery(path[1..], query);
      assert [path[0]] + path[1..] == path;
    }
  }

  /** Text is refused exactly for a character that is not allowed; otherwise it is split at its first
      question mark, and the parts printed again are the text. */
  lemma {:induction false} ParseSplitsText(text: string, allowed: char -> bool)
    ensures var parsed := ParsePathAndQuery(text, allowed);
            && (parsed.None? <==> exists i :: 0 <= i < |text| && !allowed(text[i]))
            && (parsed.Some? ==> PathAndQuery(parsed.value.0, parsed.value.1) == text && '?' !in parsed.value.0)
  {
    if text != "" {
      ParseSplitsText(text[1..], allowed);
      assert text == [text[0]] + text[1..];
      assert forall i :: 0 <= i < |text[1..]| ==> text[1..][i] == text[i + 1];
      assert forall i :: 1 <= i < |text| ==> text[i] == text[1..][i - 1];
      if text[0] == '?' { assert "" + "?" + text[1..] == text; }
    }
  }

  predicate FreeOf(segments: seq<string>, c: char) { forall i :: 0 <= i < |segments| ==> c !in segments[i] }

  /** Normalization writes no character that was not there, except slashes. */
  lemma {:induction false} ResolveKeepsCharacters(stack: seq<string>, segments: seq<string>, c: char)
    requires FreeOf(stack, c) && FreeOf(segments, c)
    ensures Resolve(stack, segments).Some? ==> FreeOf(Resolve(stack, segments).value, c)
    decreases |segments|
  {
    if segments != [] {
      if segments[0] == "" || segments[0] == "." {
        ResolveKeepsCharacters(stack, segments[1..], c);
      } else if segments[0] == ".." {
        if stack != [] { ResolveKeepsCharacters(stack[..|stack| - 1], segments[1..], c); }
      } else {
        ResolveKeepsCharacters(stack + [segments[0]], segments[1..], c);
      }
    }
  }

  lemma {:induction false} SplitKeepsCharacters(path: string, c: char)
    requires c !in path
    ensures FreeOf(Split(path), c)
  {
    if path != "" { SplitKeepsCharacters(path[1..], c); }
  }

  lemma {:induction false} JoinKeepsCharacters(stack: seq<string>, c: char)
    requires c != '/' && FreeOf(stack, c)
    ensures c !in Join(stack)
  {
    if stack != [] { JoinKeepsCharacters(stack[1..], c); }
  }

  lemma NormalizedKeepsCharacters(path: string, c: char)
    requires Normalized(path).Ok? && c !in path && c != '/'
    ensures c !in Normalized(path).value
  {
    SplitKeepsCharacters(path, c);
    ResolveKeepsCharacters([], Split(path), c);
    JoinKeepsCharacters(Resolve([], Split(path)).value, c);
  }

  /** A URI with one of scheme and authority but not the other; of the URIs a parser yields, those are
      the ones in authority form. */
  predicate Lopsided(uri: Uri) { uri.scheme.Some? != uri.authority.Some? }

  /** For every well-formed URI: rejected if the path escapes the root, `None` exactly for canonical
      paths, invalid exactly if a new path would have to be put into a URI that cannot carry one,
      and otherwise the normal path with everything else kept, which needs no further normalization. */
  lemma RequestUriNormalized(uri: Uri, allowed: char -> bool)
    requires WellFormed(uri, allowed) && allowed('/') && allowed('?')
    ensures var r := NormalizedUri(uri, allowed);
            && (r == Err(PathEscapesRoot) <==> !StaysInside(Split(uri.path)))
            && (r == Err(InvalidUri) <==> StaysInside(Split(uri.path)) && !Canonical(uri.path) && Lopsided(uri))
            && (r == Ok(None) <==> Canonical(uri.path))
            && (r.Ok? && r.value.Some? ==>
                  && r.value.value == uri.(path := Normalized(uri.path).value)
                  && NormalizedUri(r.value.value, allowed) == Ok(None))
  {
    RejectedExactlyWhenEscaping(uri.path);
    NormalFormsAreFixedPoints(uri.path);
    if Normalized(uri.path).Ok? {
      var path := Normalized(uri.path).value;
      forall i | 0 <= i < |path| ensures allowed(path[i]) && path[i] != '?' {
        if path[i] != '/' && path[i] !in uri.path {
          NormalizedKeepsCharacters(uri.path, path[i]);
        }
      }
      ParseUndoesPrint(path, uri.query, allowed);
      NormalizationIsIdempotent(uri.path);
    }
  }

  /** A request in authority form is refused as invalid: its empty path normalizes to the root, which
      cannot stand beside an authority without a scheme. */
  lemma AuthorityFormIsRefused(uri: Uri, allowed: char -> bool)
    requires uri.path == "" && uri.query.None? && uri.scheme.None? && uri.authority.Some?
    ensures NormalizedUri(uri, allowed) == Err(InvalidUri)
  {
    assert Split("") == [""];
    assert Resolve([], [""]) == Some([]);
    assert Normalized(uri.path) == Ok("/");
  }
}
