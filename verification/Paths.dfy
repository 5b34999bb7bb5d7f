/**
 Path strings: splitting at '/', and the kernel's tokeniser, which walks a pointer
 over the path and copies one component at a time into a fixed buffer.
 */
module Paths {
  import opened CStrings

  const MAX_FILENAME := 256
  /** The size of the buffers that hold whole paths. */
  const PATH_BUFFER := 2 * MAX_FILENAME

  // ---------------------------------------------------------------- splitting

  /** The pieces of `s` between separators; always at least one. */
  function Split(s: string, sep: char): (pieces: seq<string>)
    ensures |pieces| >= 1
  {
    if s == "" then [""]
    else
      var rest := Split(s[1..], sep);
      if s[0] == sep then [""] + rest else [[s[0]] + rest[0]] + rest[1..]
  }

  function Join(pieces: seq<string>, sep: char): string
    requires |pieces| >= 1
  {
    if |pieces| == 1 then pieces[0] else pieces[0] + [sep] + Join(pieces[1..], sep)
  }

  /** Nothing is lost by splitting, and no piece contains the separator. */
  lemma {:induction false} SplitInverts(s: string, sep: char)
    ensures Join(Split(s, sep), sep) == s
    ensures forall k :: 0 <= k < |Split(s, sep)| ==> sep !in Split(s, sep)[k]
  {
    if s != "" {
      SplitInverts(s[1..], sep);
      var rest, all := Split(s[1..], sep), Split(s, sep);
      if s[0] == sep {
        assert all[1..] == rest;
      } else {
        assert all[1..] == rest[1..];
        assert |rest| > 1 ==> Join(all, sep) == [s[0]] + (rest[0] + [sep] + Join(rest[1..], sep));
      }
      assert s == [s[0]] + s[1..];
    }
  }

  lemma {:induction false} SplitPlain(s: string, sep: char)
    requires sep !in s
    ensures Split(s, sep) == [s]
  {
    if s != "" {
      SplitPlain(s[1..], sep);
      assert s == [s[0]] + s[1..];
    }
  }

  /** The pieces once one more character is put in front. */
  function Push(c: char, pieces: seq<string>, sep: char): seq<string>
    requires |pieces| >= 1
  {
    if c == sep then [""] + pieces else [[c] + pieces[0]] + pieces[1..]
  }

  lemma PushConcat(c: char, first: seq<string>, second: seq<string>, sep: char)
    requires |first| >= 1
    ensures Push(c, first + second, sep) == Push(c, first, sep) + second
  {
    if c != sep {
      assert (first + second)[0] == first[0] && (first + second)[1..] == first[1..] + second;
    }
  }

  lemma SplitCons(c: char, s: string, sep: char)
    ensures Split([c] + s, sep) == Push(c, Split(s, sep), sep)
  {
    assert ([c] + s)[1..] == s;
  }

  lemma HeadAndTail(a: string, b: string, sep: char)
    requires a != ""
    ensures a == [a[0]] + a[1..] && a + [sep] + b == [a[0]] + (a[1..] + [sep] + b)
  {
  }

  lemma SplitConcatStep(c: char, tail: string, rest: string, b: string, sep: char)
    requires Split(rest, sep) == Split(tail, sep) + Split(b, sep)
    ensures Split([c] + rest, sep) == Split([c] + tail, sep) + Split(b, sep)
  {
    SplitCons(c, rest, sep);
    SplitCons(c, tail, sep);
    PushConcat(c, Split(tail, sep), Split(b, sep), sep);
  }

  /** A separator ends one list of pieces and starts the next. */
  lemma {:induction false} SplitConcat(a: string, b: string, sep: char)
    ensures Split(a + [sep] + b, sep) == Split(a, sep) + Split(b, sep)
  {
    if a == "" {
      assert "" + [sep] + b == [sep] + b;
      SplitCons(sep, b, sep);
    } else {
      SplitConcat(a[1..], b, sep);
      HeadAndTail(a, b, sep);
      SplitConcatStep(a[0], a[1..], a[1..] + [sep] + b, b, sep);
    }
  }

  /** Separator-free pieces survive joining and splitting again. */
  lemma {:induction false} JoinInverts(pieces: seq<string>, sep: char)
    requires |pieces| >= 1
    requires forall k :: 0 <= k < |pieces| ==> sep !in pieces[k]
    ensures Split(Join(pieces, sep), sep) == pieces
  {
    SplitPlain(pieces[0], sep);
    if |pieces| > 1 {
      JoinInverts(pieces[1..], sep);
      SplitConcat(pieces[0], Join(pieces[1..], sep), sep);
    }
  }

  // ---------------------------------------------------------------- components

  function NonEmpty(pieces: seq<string>): seq<string> {
    if pieces == [] then []
    else if pieces[0] == "" then NonEmpty(pieces[1..])
    else [pieces[0]] + NonEmpty(pieces[1..])
  }

  /** A path names its slash-separated pieces; empty pieces do not count. */
  function Components(path: string): seq<string> {
    NonEmpty(Split(path, '/'))
  }

  lemma Prepend(first: string, a: seq<string>, b: seq<string>)
    ensures [first] + (a + b) == [first] + a + b
  {
  }

  lemma {:induction false} NonEmptyConcat(a: seq<string>, b: seq<string>)
    ensures NonEmpty(a + b) == NonEmpty(a) + NonEmpty(b)
  {
    if a == [] {
      assert a + b == b;
    } else {
      NonEmptyConcat(a[1..], b);
      assert (a + b)[0] == a[0] && (a + b)[1..] == a[1..] + b;
      Prepend(a[0], NonEmpty(a[1..]), NonEmpty(b));
    }
  }

  lemma {:induction false} NonEmptyMembers(pieces: seq<string>)
    ensures forall c :: c in NonEmpty(pieces) <==> c in pieces && c != ""
  {
    if pieces != [] {
      NonEmptyMembers(pieces[1..]);
      assert forall c :: c in pieces <==> c == pieces[0] || c in pieces[1..];
    }
  }

  lemma ComponentsAreNames(path: string)
    ensures forall k :: 0 <= k < |Components(path)| ==> Components(path)[k] != "" && '/' !in Components(path)[k]
  {
    SplitInverts(path, '/');
    NonEmptyMembers(Split(path, '/'));
    assert forall k :: 0 <= k < |Components(path)| ==> Components(path)[k] in Components(path);
  }

  /** Joining two paths with a slash concatenates their component lists. */
  lemma ComponentsConcat(a: string, b: string)
    ensures Components(a + "/" + b) == Components(a) + Components(b)
  {
    SplitConcat(a, b, '/');
    NonEmptyConcat(Split(a, '/'), Split(b, '/'));
  }

  lemma ComponentsOfName(name: string)
    requires '/' !in name
    ensures Components(name) == if name == "" then [] else [name]
  {
    SplitPlain(name, '/');
    assert NonEmpty([name][1..]) == [];
    assert NonEmpty([name]) == if name == "" then [] else [name];
  }

  lemma ComponentsRooted(path: string)
    ensures Components("/" + path) == Components(path)
  {
  }

  /** Every component fits the tokeniser's buffer. */
  ghost predicate ComponentsFit(path: string) {
    forall c :: c in Components(path) ==> |c| < MAX_FILENAME
  }

  lemma {:induction false} PiecesAreShorter(s: string, sep: char)
    ensures forall k :: 0 <= k < |Split(s, sep)| ==> |Split(s, sep)[k]| <= |s|
  {
    if s != "" { PiecesAreShorter(s[1..], sep); }
  }

  /** A path short enough to be a name has components short enough to be names. */
  lemma ShortPathFits(path: string)
    requires |path| < MAX_FILENAME
    ensures ComponentsFit(path)
  {
    PiecesAreShorter(path, '/');
    NonEmptyMembers(Split(path, '/'));
  }

  // ---------------------------------------------------------------- tokeniser

  ghost predicate AllSlashes(s: string) {
    forall k :: 0 <= k < |s| ==> s[k] == '/'
  }

  /** `token` is the next component of `rest`; `after` is what follows it. */
  ghost predicate NextToken(rest: string, token: string, after: string) {
    && '/' !in token
    && (after == "" || after[0] == '/')
    && exists slashes: string :: AllSlashes(slashes) && rest == slashes + token + after
  }

  lemma {:induction false} SlashesHaveNoComponents(slashes: string, rest: string)
    requires AllSlashes(slashes)
    ensures Components(slashes + rest) == Components(rest)
  {
    if slashes == "" {
      assert slashes + rest == rest;
    } else {
      SlashesHaveNoComponents(slashes[1..], rest);
      ComponentsRooted(slashes[1..] + rest);
      assert slashes + rest == "/" + (slashes[1..] + rest);
    }
  }

  lemma TokenThenRest(token: string, after: string)
    requires '/' !in token && (after == "" || after[0] == '/')
    ensures Components(token + after) == Components(token) + Components(after)
  {
    if after == "" {
      assert token + after == token;
      ComponentsOfName("");
    } else {
      ComponentsConcat(token, after[1..]);
      ComponentsRooted(after[1..]);
      assert "/" + after[1..] == after;
      assert token + "/" + after[1..] == token + after;
    }
  }

  lemma TokenIsFirstComponent(rest: string, token: string, after: string)
    requires NextToken(rest, token, after)
    ensures Components(rest) == (if token == "" then [] else [token]) + Components(after)
  {
    var slashes: string :| AllSlashes(slashes) && rest == slashes + token + after;
    assert slashes + (token + after) == rest;
    SlashesHaveNoComponents(slashes, token + after);
    TokenThenRest(token, after);
    ComponentsOfName(token);
  }

  /** The first component fits whenever they all do. */
  lemma TokenFits(rest: string, token: string, after: string)
    requires NextToken(rest, token, after) && ComponentsFit(rest)
    ensures |token| < MAX_FILENAME && ComponentsFit(after)
  {
    TokenIsFirstComponent(rest, token, after);
    if token != "" { assert Components(rest)[0] == token; }
    assert forall c :: c in Components(after) ==> c in Components(rest);
  }

  datatype Pointer = Null | To(offset: nat)

  /** `get_next_path_component`: copies the component at `p` and returns where it stopped. */
  method GetNextPathComponent(path: CString, start: nat, component: array<char>)
    returns (next: Pointer)
    requires start <= |path|
    requires component.Length == MAX_FILENAME && ComponentsFit(path[start..])
    modifies component
    ensures next.To? ==> start <= next.offset < |path|
    ensures next.To? && start < |path| ==> start < next.offset
    ensures var after := if next.To? then path[next.offset..] else "";
            var token := Text(component[..]);
            NextToken(path[start..], token, after) && |token| < MAX_FILENAME
  {
    var p := start;
    while At(path, p) == '/'
      invariant start <= p <= |path|
      invariant forall k :: start <= k < p ==> path[k] == '/'
      decreases |path| - p
    {
      p := p + 1;
    }
    var first := p;
    while At(path, p) != NUL && At(path, p) != '/'
      invariant first <= p <= |path|
      invariant forall k :: first <= k < p ==> path[k] != '/'
      invariant p - first < MAX_FILENAME
      invariant component[..p - first] == path[first..p]
      decreases |path| - p
    {
      TokenBound(path, start, first, p + 1);
      component[p - first] := path[p];
      p := p + 1;
    }
    component[p - first] := NUL;
    assert Holds(component[..], path[first..p]);
    HoldsText(component[..], path[first..p]);
    TokenFound(path, start, first, p);
    next := if At(path, p) != NUL then To(p) else Null;
  }

  lemma TokenFound(path: string, start: nat, first: nat, p: nat)
    requires start <= first <= p <= |path|
    requires forall k :: start <= k < first ==> path[k] == '/'
    requires forall k :: first <= k < p ==> path[k] != '/'
    requires p < |path| ==> path[p] == '/'
    ensures NextToken(path[start..], path[first..p], path[p..])
  {
    var slashes := path[start..first];
    assert AllSlashes(slashes);
    assert path[start..] == slashes + path[first..p] + path[p..];
  }

  /** Any slash-free stretch right after the leading slashes lies inside one component. */
  lemma TokenBound(path: string, start: nat, first: nat, p: nat)
    requires start <= first < p <= |path|
    requires forall k :: start <= k < first ==> path[k] == '/'
    requires forall k :: first <= k < p ==> path[k] != '/'
    requires ComponentsFit(path[start..])
    ensures p - first < MAX_FILENAME
    decreases |path| - p
  {
    if p < |path| && path[p] != '/' {
      TokenBound(path, start, first, p + 1);
    } else {
      TokenFound(path, start, first, p);
      TokenFits(path[start..], path[first..p], path[p..]);
    }
  }
}
