/** Routes with `:name` parameters (engine/net/Http.cpp): a pattern is cut into fixed fragments and
    parameter names, and a path is matched against them by running through the fragments in order and
    taking each parameter up to the next slash. */
module PathParams {
  import opened Common
  import opened Strings

  /** One more fragment than names: fragment, parameter, fragment, ..., parameter, fragment. */
  datatype Pattern = Pattern(fragments: seq<string>, names: seq<string>)

  /** A parameter's name runs from its colon to the next slash, or to the end. */
  function ParseFrom(pattern: string, last: nat): (p: Pattern)
    requires last <= |pattern|
    ensures |p.fragments| == |p.names| + 1
    decreases |pattern| - last
  {
    var colon := Find(pattern, ':', last);
    if colon == |pattern| then Pattern([pattern[last..]], [])
    else
      var end := Find(pattern, '/', colon);
      var rest := ParseFrom(pattern, end);
      Pattern([pattern[last..colon]] + rest.fragments, [pattern[colon + 1..end]] + rest.names)
  }

  function Parse(pattern: string): (p: Pattern)
    ensures |p.fragments| == |p.names| + 1
  {
    ParseFrom(pattern, 0)
  }

  /** The fragments with values between them, from fragment `i` on. */
  function BuildFrom(fragments: seq<string>, values: seq<string>, i: nat): string
    requires |fragments| == |values| + 1 && i < |fragments|
    decreases |values| - i
  {
    if i == |values| then fragments[i]
    else fragments[i] + (values[i] + BuildFrom(fragments, values, i + 1))
  }

  function Build(fragments: seq<string>, values: seq<string>): string
    requires |fragments| == |values| + 1
  {
    BuildFrom(fragments, values, 0)
  }

  lemma {:induction false} BuildShift(f: string, fs: seq<string>, v: string, vs: seq<string>, i: nat)
    requires |fs| == |vs| + 1 && i < |fs|
    ensures BuildFrom([f] + fs, [v] + vs, i + 1) == BuildFrom(fs, vs, i)
    decreases |vs| - i
  {
    if i < |vs| {
      BuildShift(f, fs, v, vs, i + 1);
    }
  }

  lemma BuildFirst(f: string, fs: seq<string>, v: string, vs: seq<string>)
    requires |fs| == |vs| + 1
    ensures Build([f] + fs, [v] + vs) == f + (v + Build(fs, vs))
  {
    BuildShift(f, fs, v, vs, 0);
  }

  predicate SlashFree(values: seq<string>) {
    forall i :: 0 <= i < |values| ==> '/' !in values[i]
  }

  /** A fragment after a parameter begins with a slash, unless it is the last one and empty. */
  predicate Separated(fragments: seq<string>) {
    forall i :: 1 <= i < |fragments| ==> if fragments[i] == "" then i == |fragments| - 1 else fragments[i][0] == '/'
  }

  function Colons(names: seq<string>): (r: seq<string>)
    ensures |r| == |names|
  {
    if names == [] then [] else [":" + names[0]] + Colons(names[1..])
  }

  /** Parsing loses nothing: the pattern is its fragments with the names, colons and all, between them. */
  lemma ParseInverts(pattern: string)
    ensures Build(Parse(pattern).fragments, Colons(Parse(pattern).names)) == pattern
  {
    ParseFromInverts(pattern, 0);
    assert pattern[0..] == pattern;
  }

  lemma {:induction false} ParseFromInverts(pattern: string, last: nat)
    requires last <= |pattern|
    ensures Build(ParseFrom(pattern, last).fragments, Colons(ParseFrom(pattern, last).names)) == pattern[last..]
    decreases |pattern| - last
  {
    var colon := Find(pattern, ':', last);
    if colon < |pattern| {
      var end := Find(pattern, '/', colon);
      ParseFromInverts(pattern, end);
      FourPieces(pattern, last, colon, end);
      BuildNamed(pattern[last..colon], pattern[colon + 1..end], ParseFrom(pattern, end));
      assert ParseFrom(pattern, last).names == [pattern[colon + 1..end]] + ParseFrom(pattern, end).names;
    }
  }

  lemma BuildNamed(f: string, name: string, p: Pattern)
    requires |p.fragments| == |p.names| + 1
    ensures Build([f] + p.fragments, Colons([name] + p.names)) == f + (":" + name + Build(p.fragments, Colons(p.names)))
  {
    assert ([name] + p.names)[1..] == p.names;
    BuildFirst(f, p.fragments, ":" + name, Colons(p.names));
  }

  lemma FourPieces(s: string, i: nat, j: nat, k: nat)
    requires i <= j < k <= |s|
    ensures s[i..] == s[i..j] + ([s[j]] + s[j + 1..k] + s[k..])
  {
  }

  /** No name holds a slash, and every parameter that does not end the pattern is followed by one. */
  lemma {:induction false} ParseSeparates(pattern: string, last: nat)
    requires last <= |pattern|
    ensures SlashFree(ParseFrom(pattern, last).names) && Separated(ParseFrom(pattern, last).fragments)
    decreases |pattern| - last
  {
    var colon := Find(pattern, ':', last);
    if colon < |pattern| {
      var end := Find(pattern, '/', colon);
      ParseSeparates(pattern, end);
      FindIsFirst(pattern, '/', colon);
      assert pattern[colon + 1..end] == pattern[colon..end][1..];
      FirstFragment(pattern, end);
      SeparatedFirst(pattern[last..colon], ParseFrom(pattern, end).fragments);
    }
  }

  lemma SeparatedFirst(f: string, fs: seq<string>)
    requires fs != [] && Separated(fs) && if fs[0] == "" then |fs| == 1 else fs[0][0] == '/'
    ensures Separated([f] + fs)
  {
    var all := [f] + fs;
    forall i | 1 <= i < |all| ensures if all[i] == "" then i == |all| - 1 else all[i][0] == '/' {
      assert all[i] == fs[i - 1];
    }
  }

  /** What is left after a parameter is empty or begins with a slash, and so does its first fragment. */
  lemma FirstFragment(pattern: string, end: nat)
    requires end <= |pattern| && (end < |pattern| ==> pattern[end] == '/')
    ensures var f := ParseFrom(pattern, end).fragments; if f[0] == "" then |f| == 1 else f[0][0] == '/'
  {
  }

  // ----- matching

  /** The fragment stands in the path at this position. */
  predicate StandsAt(path: string, pos: nat, fragment: string) {
    pos + |fragment| <= |path| && path[pos..pos + |fragment|] == fragment
  }

  /** Whether the path from `pos` on runs through all the fragments from `i` on and ends with the last. */
  predicate Accepts(fragments: seq<string>, path: string, i: nat, pos: nat)
    requires i < |fragments|
    decreases |fragments| - i
  {
    && StandsAt(path, pos, fragments[i])
    && var from := pos + |fragments[i]|;
      if i == |fragments| - 1 then from == |path|
      else Accepts(fragments, path, i + 1, Find(path, '/', from))
  }

  /** The values met on the way, up to the fragment that does not fit. */
  function Bound(fragments: seq<string>, path: string, i: nat, pos: nat): (values: seq<string>)
    requires i < |fragments|
    ensures i + |values| < |fragments|
    decreases |fragments| - i
  {
    if !StandsAt(path, pos, fragments[i]) || i == |fragments| - 1 then []
    else
      var from := pos + |fragments[i]|;
      var end := Find(path, '/', from);
      [path[from..end]] + Bound(fragments, path, i + 1, end)
  }

  /** A path that is accepted is the pattern with the values met in place of its parameters. */
  lemma {:induction false} AcceptedIsBuilt(fragments: seq<string>, path: string, values: seq<string>, i: nat, pos: nat)
    requires i < |fragments| == |values| + 1 && Accepts(fragments, path, i, pos) && values[i..] == Bound(fragments, path, i, pos)
    ensures path[pos..] == BuildFrom(fragments, values, i)
    decreases |fragments| - i
  {
    var from := pos + |fragments[i]|;
    if i < |values| {
      var end := Find(path, '/', from);
      assert values[i] == values[i..][0] && values[i + 1..] == values[i..][1..];
      AcceptedIsBuilt(fragments, path, values, i + 1, end);
      ThreePieces(path, pos, from, end);
    }
  }

  lemma {:induction false} AcceptedBindsAll(fragments: seq<string>, path: string, i: nat, pos: nat)
    requires i < |fragments| && Accepts(fragments, path, i, pos)
    ensures |fragments| == i + |Bound(fragments, path, i, pos)| + 1
    decreases |fragments| - i
  {
    if i < |fragments| - 1 {
      AcceptedBindsAll(fragments, path, i + 1, Find(path, '/', pos + |fragments[i]|));
    }
  }

  lemma ThreePieces(s: string, i: nat, j: nat, k: nat)
    requires i <= j <= k <= |s|
    ensures s[i..] == s[i..j] + (s[j..k] + s[k..])
  {
  }

  lemma {:induction false} BoundSlashFree(fragments: seq<string>, path: string, i: nat, pos: nat)
    requires i < |fragments|
    ensures SlashFree(Bound(fragments, path, i, pos))
    decreases |fragments| - i
  {
    if StandsAt(path, pos, fragments[i]) && i < |fragments| - 1 {
      var from := pos + |fragments[i]|;
      FindIsFirst(path, '/', from);
      BoundSlashFree(fragments, path, i + 1, Find(path, '/', from));
    }
  }

  /** The pattern with slash-free values is accepted, and those are the values met. */
  lemma {:induction false} BuiltIsAccepted(fragments: seq<string>, values: seq<string>, path: string, i: nat, pos: nat)
    requires i < |fragments| == |values| + 1 && SlashFree(values) && Separated(fragments)
    requires pos <= |path| && path[pos..] == BuildFrom(fragments, values, i)
    ensures Accepts(fragments, path, i, pos) && Bound(fragments, path, i, pos) == values[i..]
    decreases |values| - i
  {
    if i == |values| {
      BuiltEnds(fragments, path, pos);
    } else {
      TailBegins(fragments, values, i);
      var end := BuiltStep(fragments, values, path, i, pos);
      SliceFirst(values, i);
      BuiltIsAccepted(fragments, values, path, i + 1, end);
    }
  }

  lemma SliceFirst(values: seq<string>, i: nat)
    requires i < |values|
    ensures values[i..] == [values[i]] + values[i + 1..]
  {
  }

  /** The definitions of acceptance and of the values, for one fragment that fits. */
  lemma WalkOn(fragments: seq<string>, path: string, i: nat, pos: nat, from: nat, end: nat)
    requires i < |fragments| - 1 && StandsAt(path, pos, fragments[i]) && from == pos + |fragments[i]| && end == Find(path, '/', from)
    ensures Accepts(fragments, path, i, pos) == Accepts(fragments, path, i + 1, end)
    ensures Bound(fragments, path, i, pos) == [path[from..end]] + Bound(fragments, path, i + 1, end)
  {
  }

  lemma BuiltEnds(fragments: seq<string>, path: string, pos: nat)
    requires fragments != [] && pos <= |path| && path[pos..] == fragments[|fragments| - 1]
    ensures Accepts(fragments, path, |fragments| - 1, pos) && Bound(fragments, path, |fragments| - 1, pos) == []
  {
    assert path[pos..] == path[pos..|path|];
  }

  lemma BuiltStep(fragments: seq<string>, values: seq<string>, path: string, i: nat, pos: nat) returns (end: nat)
    requires i < |fragments| - 1 == |values| && '/' !in values[i]
    requires pos <= |path| && path[pos..] == BuildFrom(fragments, values, i)
    requires var tail := BuildFrom(fragments, values, i + 1); tail == "" || tail[0] == '/'
    ensures end <= |path| && path[end..] == BuildFrom(fragments, values, i + 1)
    ensures Accepts(fragments, path, i, pos) == Accepts(fragments, path, i + 1, end)
    ensures Bound(fragments, path, i, pos) == [values[i]] + Bound(fragments, path, i + 1, end)
  {
    var from := Follows(path, pos, fragments[i], values[i], BuildFrom(fragments, values, i + 1));
    end := from + |values[i]|;
    WalkOn(fragments, path, i, pos, from, end);
  }

  lemma TailBegins(fragments: seq<string>, values: seq<string>, i: nat)
    requires i < |fragments| - 1 == |values| && Separated(fragments)
    ensures var tail := BuildFrom(fragments, values, i + 1); tail == "" || tail[0] == '/'
  {
  }

  /** What stands where when a path goes on with a fragment, a value and a tail. */
  lemma Follows(path: string, pos: nat, fragment: string, value: string, tail: string) returns (from: nat)
    requires pos <= |path| && path[pos..] == fragment + (value + tail)
    requires '/' !in value && (tail == "" || tail[0] == '/')
    ensures StandsAt(path, pos, fragment) && from == pos + |fragment| <= |path|
    ensures Find(path, '/', from) == from + |value| <= |path|
    ensures path[from..from + |value|] == value && path[from + |value|..] == tail
  {
    from := pos + |fragment|;
    var rest := path[pos..];
    assert path[pos..from] == rest[..|fragment|] == fragment;
    assert path[from..] == rest[|fragment|..] == value + tail;
    assert path[from..from + |value|] == path[from..][..|value|] == value;
    assert path[from + |value|..] == path[from..][|value|..] == tail;
    assert tail != "" ==> path[from + |value|] == tail[0];
    FindUnique(path, '/', from, from + |value|);
  }

  /** Whether a matcher accepts a whole path, and the values it meets. */
  predicate Matches(fragments: seq<string>, path: string)
    requires fragments != []
  {
    Accepts(fragments, path, 0, 0)
  }

  function Met(fragments: seq<string>, path: string): (values: seq<string>)
    requires fragments != []
    ensures |values| < |fragments|
  {
    Bound(fragments, path, 0, 0)
  }

  ghost predicate Replaces(p: Pattern, path: string, values: seq<string>)
    requires |p.fragments| == |p.names| + 1
  {
    |values| == |p.names| && SlashFree(values) && path == Build(p.fragments, values)
  }

  /** A matcher built from a pattern accepts a path exactly when the path is the pattern with each
      parameter replaced by a slash-free value. */
  lemma MatchesIff(pattern: string, path: string)
    ensures Matches(Parse(pattern).fragments, path) <==> exists vs: seq<string> :: Replaces(Parse(pattern), path, vs)
  {
    var p := Parse(pattern);
    if Matches(p.fragments, path) {
      var met := Met(p.fragments, path);
      AcceptedBindsAll(p.fragments, path, 0, 0);
      assert path[0..] == path && met[0..] == met;
      AcceptedIsBuilt(p.fragments, path, met, 0, 0);
      BoundSlashFree(p.fragments, path, 0, 0);
      assert Replaces(p, path, Met(p.fragments, path));
    }
    if vs: seq<string> :| Replaces(p, path, vs) {
      ValuesUnique(pattern, path, vs);
    }
  }

  /** And there is only one way to do so: with the values met on the way. */
  lemma ValuesUnique(pattern: string, path: string, values: seq<string>)
    requires Replaces(Parse(pattern), path, values)
    ensures Matches(Parse(pattern).fragments, path) && values == Met(Parse(pattern).fragments, path)
  {
    var fragments := Parse(pattern).fragments;
    ParseSeparates(pattern, 0);
    assert path[0..] == path && values[0..] == values;
    BuiltIsAccepted(fragments, values, path, 0, 0);
  }

  // ----- the parameters by name

  /** Names bound in order; a name bound twice keeps its last value. */
  function Params(names: seq<string>, values: seq<string>): map<string, string>
    requires |names| >= |values|
  {
    if values == [] then map[]
    else Params(names, values[..|values| - 1])[names[|values| - 1] := values[|values| - 1]]
  }

  predicate Distinct(names: seq<string>) {
    forall i, j :: 0 <= i < j < |names| ==> names[i] != names[j]
  }

  /** The last parameter of a name is the one that is kept. */
  lemma {:induction false} ParamsByName(names: seq<string>, values: seq<string>, i: nat)
    requires i < |values| <= |names| && forall j :: i < j < |values| ==> names[j] != names[i]
    ensures names[i] in Params(names, values) && Params(names, values)[names[i]] == values[i]
  {
    if i < |values| - 1 {
      ParamsByName(names, values[..|values| - 1], i);
    }
  }

  /** A parameter that no later one shares its name with holds exactly the value that was substituted. */
  lemma RouteRoundTrip(pattern: string, values: seq<string>, i: nat)
    requires |values| == |Parse(pattern).names| && SlashFree(values) && i < |values|
    requires forall j :: i < j < |values| ==> Parse(pattern).names[j] != Parse(pattern).names[i]
    ensures var p := Parse(pattern); var path := Build(p.fragments, values);
      && Matches(p.fragments, path)
      && p.names[i] in Params(p.names, Met(p.fragments, path))
      && Params(p.names, Met(p.fragments, path))[p.names[i]] == values[i]
  {
    var p := Parse(pattern);
    ValuesUnique(pattern, Build(p.fragments, values), values);
    ParamsByName(p.names, values, i);
  }

  /** Every parameter of a list of values reads back by its name. */
  ghost predicate ReadsBack(names: seq<string>, values: seq<string>)
    requires |names| == |values|
  {
    forall i :: 0 <= i < |names| ==> names[i] in Params(names, values) && Params(names, values)[names[i]] == values[i]
  }

  ghost predicate AlwaysReadsBack(names: seq<string>) {
    forall values: seq<string> :: |values| == |names| && SlashFree(values) ==> ReadsBack(names, values)
  }

  /** All parameters of a route can be told apart exactly when their names are distinct. */
  lemma ReadsBackIff(names: seq<string>)
    ensures AlwaysReadsBack(names) <==> Distinct(names)
  {
    if Distinct(names) {
      forall values: seq<string> | |values| == |names| && SlashFree(values) ensures ReadsBack(names, values) {
        forall i | 0 <= i < |names| ensures names[i] in Params(names, values) && Params(names, values)[names[i]] == values[i] {
          ParamsByName(names, values, i);
        }
      }
    } else {
      var i, j :| 0 <= i < j < |names| && names[i] == names[j];
      var last := LastOf(names, j);
      var values := seq(|names|, k => if k == i then "x" else "");
      ParamsByName(names, values, last);
      assert values[i] == "x" && values[last] == "";
      assert !ReadsBack(names, values);
    }
  }

  lemma {:induction false} LastOf(names: seq<string>, j: nat) returns (last: nat)
    requires j < |names|
    ensures j <= last < |names| && names[last] == names[j]
    ensures forall k :: last < k < |names| ==> names[k] != names[last]
    decreases |names| - j
  {
    if k :| j < k < |names| && names[k] == names[j] {
      last := LastOf(names, k);
    } else {
      last := j;
    }
  }

  // ----- the object itself

  /** What is parsed so far, and what the rest parses to, make the whole. */
  ghost predicate Makes(whole: Pattern, fragments: seq<string>, names: seq<string>, rest: Pattern) {
    fragments + rest.fragments == whole.fragments && names + rest.names == whole.names
  }

  lemma MakesMore(whole: Pattern, fragments: seq<string>, names: seq<string>, f: string, n: string, rest: Pattern)
    requires Makes(whole, fragments, names, Pattern([f] + rest.fragments, [n] + rest.names))
    ensures Makes(whole, fragments + [f], names + [n], rest)
  {
    Regroup(fragments, [f], rest.fragments);
    Regroup(names, [n], rest.names);
  }

  lemma ParseStep(pattern: string, last: nat, colon: nat, end: nat, fragments: seq<string>, names: seq<string>)
    requires last <= |pattern| && colon == Find(pattern, ':', last) < |pattern| && end == Find(pattern, '/', colon)
    requires Makes(Parse(pattern), fragments, names, ParseFrom(pattern, last))
    ensures colon < end
    ensures Makes(Parse(pattern), fragments + [pattern[last..colon]], names + [pattern[colon + 1..end]], ParseFrom(pattern, end))
  {
    MakesMore(Parse(pattern), fragments, names, pattern[last..colon], pattern[colon + 1..end], ParseFrom(pattern, end));
  }

  lemma ParseEnds(pattern: string, last: nat, fragments: seq<string>, names: seq<string>)
    requires last <= |pattern| && Find(pattern, ':', last) == |pattern|
    requires Makes(Parse(pattern), fragments, names, ParseFrom(pattern, last))
    ensures Pattern(fragments + [pattern[last..]], names) == Parse(pattern)
  {
  }

  /** The first `i` values are bound, and the rest of the path decides the rest. */
  ghost predicate WalkedTo(fragments: seq<string>, names: seq<string>, path: string, i: nat, pos: nat, params: map<string, string>)
    requires |fragments| == |names| + 1
  {
    && i < |fragments| && Matches(fragments, path) == Accepts(fragments, path, i, pos)
    && i <= |Met(fragments, path)| && Met(fragments, path)[i..] == Bound(fragments, path, i, pos)
    && params == Params(names, Met(fragments, path)[..i])
  }

  lemma WalkStep(fragments: seq<string>, names: seq<string>, path: string, i: nat, pos: nat, params: map<string, string>)
    requires |fragments| == |names| + 1 && i < |names| && WalkedTo(fragments, names, path, i, pos, params)
    requires StandsAt(path, pos, fragments[i])
    ensures var from := pos + |fragments[i]|; var end := Find(path, '/', from);
      WalkedTo(fragments, names, path, i + 1, end, params[names[i] := path[from..end]])
  {
    var all := Met(fragments, path);
    assert all[i] == all[i..][0];
    assert all[i + 1..] == all[i..][1..];
    assert all[..i + 1][..i] == all[..i];
  }

  lemma WalkEnds(fragments: seq<string>, names: seq<string>, path: string, i: nat, pos: nat, params: map<string, string>)
    requires |fragments| == |names| + 1 && WalkedTo(fragments, names, path, i, pos, params)
    requires i == |names| || !StandsAt(path, pos, fragments[i])
    ensures params == Params(names, Met(fragments, path))
  {
    assert Met(fragments, path)[..i] == Met(fragments, path);
  }

  class PathParamsMatcher {
    var fragments: seq<string>
    var names: seq<string>

    constructor (pattern: string)
      ensures Pattern(fragments, names) == Parse(pattern)
    {
      fragments, names := [], [];
      new;
      var last := 0;
      var colon := Find(pattern, ':', last);
      while colon < |pattern|
        invariant last <= |pattern| && colon == Find(pattern, ':', last)
        invariant Makes(Parse(pattern), fragments, names, ParseFrom(pattern, last))
        decreases |pattern| - last
      {
        var end := Find(pattern, '/', colon);
        ParseStep(pattern, last, colon, end, fragments, names);
        fragments := fragments + [pattern[last..colon]];
        names := names + [pattern[colon + 1..end]];
        last := end;
        colon := Find(pattern, ':', last);
      }
      ParseEnds(pattern, last, fragments, names);
      fragments := fragments + [pattern[last..]];
    }

    /** The parameters hold what was met even when the path does not match in the end. */
    method Match(path: string) returns (matched: bool, params: map<string, string>)
      requires |fragments| == |names| + 1
      ensures matched == Matches(fragments, path)
      ensures params == Params(names, Met(fragments, path))
    {
      params := map[];
      var pos := 0;
      assert Met(fragments, path)[0..] == Met(fragments, path);
      for i := 0 to |fragments|
        invariant i < |fragments| && pos <= |path|
        invariant WalkedTo(fragments, names, path, i, pos, params)
      {
        if !StandsAt(path, pos, fragments[i]) {
          WalkEnds(fragments, names, path, i, pos, params);
          return false, params;
        }
        if i == |names| {
          WalkEnds(fragments, names, path, i, pos, params);
          return pos + |fragments[i]| == |path|, params;
        }
        WalkStep(fragments, names, path, i, pos, params);
        pos := pos + |fragments[i]|;
        var end := Find(path, '/', pos);
        params := params[names[i] := path[pos..end]];
        pos := end;
      }
    }
  }
}
