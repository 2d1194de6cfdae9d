/** Node's `path` module for POSIX paths (join, normalize, resolve, relative),
    with a path held as a list of segments instead of a string. `Parse` and
    `Render` connect the two views. */
module NodePath {
  import opened Strings

  /** One path segment: a directory or file name, or `..`. */
  datatype Segment = Name(name: string) | Parent

  /** A path: `rooted` when it starts at `/`. */
  datatype Path = Path(rooted: bool, segs: seq<Segment>)

  /** A name that can stand between two `/` without being read as something else. */
  predicate ValidName(n: string) {
    n != "" && n != "." && n != ".." && '/' !in n
  }

  predicate ValidNames(segs: seq<Segment>) {
    forall i :: 0 <= i < |segs| && segs[i].Name? ==> ValidName(segs[i].name)
  }

  predicate AllNames(segs: seq<Segment>) {
    forall i :: 0 <= i < |segs| ==> segs[i].Name?
  }

  /** The shape path.normalize leaves: every `..` it could not resolve stands
      before every name, and a rooted path has none at all. */
  predicate Normalized(p: Path) {
    && (forall i, j :: 0 <= i < j < |p.segs| && p.segs[i].Name? ==> p.segs[j].Name?)
    && (p.rooted ==> AllNames(p.segs))
  }

  // ---------------------------------------------------------------------------
  // Strings to segments and back

  /** An empty part and `.` name nothing; `..` is the parent. */
  function SegmentsOf(part: string): seq<Segment> {
    if part == "" || part == "." then []
    else if part == ".." then [Parent]
    else [Name(part)]
  }

  function ParseParts(parts: seq<string>): (segs: seq<Segment>)
    ensures (forall i :: 0 <= i < |parts| ==> '/' !in parts[i]) ==> ValidNames(segs)
  {
    if parts == [] then [] else SegmentsOf(parts[0]) + ParseParts(parts[1..])
  }

  /** The segments a path string stands for, before normalisation. */
  function Parse(s: string): (p: Path)
    ensures ValidNames(p.segs)
    ensures p.rooted <==> |s| > 0 && s[0] == '/'
  {
    SplitPartsExcludeSeparator(s, '/');
    Path(|s| > 0 && s[0] == '/', ParseParts(Split(s, '/')))
  }

  function Text(s: Segment): string {
    match s
    case Name(n) => n
    case Parent => ".."
  }

  function Texts(segs: seq<Segment>): seq<string> {
    seq(|segs|, i requires 0 <= i < |segs| => Text(segs[i]))
  }

  /** The string form of a path; the empty relative path is `.`, as Node writes it. */
  function Render(p: Path): (s: string)
    ensures s != ""
  {
    var body := JoinWith(Texts(p.segs), '/');
    if p.rooted then "/" + body
    else if body == "" then "."
    else body
  }

  // ---------------------------------------------------------------------------
  // Normalisation, join, resolve, relative

  /** Appends one segment, letting `..` cancel the name before it; at the root
      a `..` is dropped, in a relative path it is kept. */
  function Push(acc: seq<Segment>, s: Segment, rooted: bool): seq<Segment> {
    match s
    case Name(_) => acc + [s]
    case Parent =>
      if |acc| > 0 && acc[|acc| - 1].Name? then acc[..|acc| - 1]
      else if rooted then acc
      else acc + [Parent]
  }

  /** Pushes the segments one after another onto the empty path. */
  function NormalizeSegments(segs: seq<Segment>, rooted: bool): seq<Segment> {
    if segs == [] then []
    else Push(NormalizeSegments(segs[..|segs| - 1], rooted), segs[|segs| - 1], rooted)
  }

  /** path.normalize: the result has the normalised shape and keeps the root. */
  function Normalize(p: Path): (q: Path)
    ensures q.rooted == p.rooted && Normalized(q)
    ensures ValidNames(p.segs) ==> ValidNames(q.segs)
  {
    NormalizeSegmentsNormalized(p.segs, p.rooted);
    Path(p.rooted, NormalizeSegments(p.segs, p.rooted))
  }

  /** Pushing a segment keeps the normalised shape and the validity of names. */
  lemma PushNormalized(acc: seq<Segment>, s: Segment, rooted: bool)
    requires Normalized(Path(rooted, acc))
    ensures Normalized(Path(rooted, Push(acc, s, rooted)))
    ensures ValidNames(acc) && (s.Name? ==> ValidName(s.name)) ==> ValidNames(Push(acc, s, rooted))
  {
    if s.Parent? && !(|acc| > 0 && acc[|acc| - 1].Name?) && !rooted {
      forall i | 0 <= i < |acc| ensures acc[i].Parent? {
        assert acc[|acc| - 1].Parent?;
      }
    }
  }

  lemma {:induction false} NormalizeSegmentsNormalized(segs: seq<Segment>, rooted: bool)
    ensures Normalized(Path(rooted, NormalizeSegments(segs, rooted)))
    ensures ValidNames(segs) ==> ValidNames(NormalizeSegments(segs, rooted))
  {
    if segs != [] {
      var init, last := segs[..|segs| - 1], segs[|segs| - 1];
      NormalizeSegmentsNormalized(init, rooted);
      assert ValidNames(segs) ==> ValidNames(init) && (last.Name? ==> ValidName(last.name));
      PushNormalized(NormalizeSegments(init, rooted), last, rooted);
    }
  }

  /** path.join of two paths: concatenate, then normalise; the second path's
      leading `/` is only a separator. */
  function Join(a: Path, b: Path): (r: Path)
    ensures r.rooted == a.rooted && Normalized(r)
  {
    Normalize(Path(a.rooted, a.segs + b.segs))
  }

  /** path.join of two strings: empty arguments are skipped, and an empty
      result is `.`. */
  function JoinStrings(a: string, b: string): (r: string)
    ensures r != ""
  {
    var joined := if a == "" then b else if b == "" then a else a + "/" + b;
    Render(Normalize(Parse(joined)))
  }

  /** path.resolve of `p` against the working directory `cwd`: always an
      absolute path without `..`. */
  function Resolve(cwd: Path, p: Path): (r: Path)
    requires cwd.rooted
    ensures r.rooted && AllNames(r.segs)
  {
    if p.rooted then Normalize(p) else Join(cwd, p)
  }

  /** The length of the longest common prefix of two segment lists. */
  function CommonPrefixLength(a: seq<Segment>, b: seq<Segment>): (k: nat)
    ensures k <= |a| && k <= |b| && a[..k] == b[..k]
    ensures k < |a| && k < |b| ==> a[k] != b[k]
  {
    if a == [] || b == [] || a[0] != b[0] then 0
    else
      var k' := CommonPrefixLength(a[1..], b[1..]);
      assert a[..k' + 1] == [a[0]] + a[1..][..k'];
      assert b[..k' + 1] == [b[0]] + b[1..][..k'];
      k' + 1
  }

  /** `n` times `..`. */
  function Ups(n: nat): (r: seq<Segment>)
    ensures |r| == n && forall i :: 0 <= i < n ==> r[i] == Parent
  {
    if n == 0 then [] else Ups(n - 1) + [Parent]
  }

  /** path.relative: climb out of `from` up to the common ancestor, then
      descend to `to`. */
  function Relative(cwd: Path, from: Path, to: Path): (r: Path)
    requires cwd.rooted
    ensures !r.rooted
  {
    var f := Resolve(cwd, from).segs;
    var t := Resolve(cwd, to).segs;
    var k := CommonPrefixLength(f, t);
    Path(false, Ups(|f| - k) + t[k..])
  }

  // ---------------------------------------------------------------------------
  // Lemmas

  /** Names appended after a path survive normalisation unchanged. */
  lemma {:induction false} NormalizeAppendNames(a: seq<Segment>, b: seq<Segment>, rooted: bool)
    requires AllNames(b)
    ensures NormalizeSegments(a + b, rooted) == NormalizeSegments(a, rooted) + b
  {
    if b != [] {
      var b' := b[..|b| - 1];
      assert (a + b)[..|a + b| - 1] == a + b';
      assert (a + b)[|a + b| - 1] == b[|b| - 1];
      NormalizeAppendNames(a, b', rooted);
      assert b' + [b[|b| - 1]] == b;
    } else {
      assert a + b == a;
    }
  }

  /** Normalising a normalised path changes nothing. */
  lemma {:induction false} NormalizeNormalized(p: Path)
    requires Normalized(p)
    ensures Normalize(p) == p
    decreases |p.segs|
  {
    var s := p.segs;
    if s != [] {
      var init := s[..|s| - 1];
      NormalizeNormalized(Path(p.rooted, init));
      if s[|s| - 1].Parent? {
        forall i | 0 <= i < |init| ensures init[i].Parent? {
          assert s[i] == init[i];
        }
        assert !p.rooted by { assert !AllNames(s); }
      }
      assert init + [s[|s| - 1]] == s;
    }
  }

  /** path.normalize is idempotent. */
  lemma NormalizeIdempotent(p: Path)
    ensures Normalize(Normalize(p)) == Normalize(p)
  {
    NormalizeNormalized(Normalize(p));
  }

  /** Normalising one more segment is pushing it onto the normalised rest. */
  lemma NormalizeSnoc(segs: seq<Segment>, s: Segment, rooted: bool)
    ensures NormalizeSegments(segs + [s], rooted) == Push(NormalizeSegments(segs, rooted), s, rooted)
  {
    var all := segs + [s];
    assert all[..|all| - 1] == segs && all[|all| - 1] == s;
  }

  /** `j` times `..` after a list of at least `j` names removes the last `j` names. */
  lemma {:induction false} NormalizeUps(names: seq<Segment>, j: nat, rooted: bool)
    requires AllNames(names) && j <= |names|
    ensures NormalizeSegments(names + Ups(j), rooted) == names[..|names| - j]
  {
    if j == 0 {
      assert names + Ups(0) == names;
      NormalizeNormalized(Path(rooted, names));
      assert names[..|names|] == names;
    } else {
      NormalizeUps(names, j - 1, rooted);
      NormalizeUpsStep(names, |names| - j, rooted);
    }
  }

  /** One more `..` removes one more name. */
  lemma NormalizeUpsStep(names: seq<Segment>, n: nat, rooted: bool)
    requires AllNames(names) && n < |names|
    requires NormalizeSegments(names + Ups(|names| - n - 1), rooted) == names[..n + 1]
    ensures NormalizeSegments(names + Ups(|names| - n), rooted) == names[..n]
  {
    var j := |names| - n;
    var s' := names + Ups(j - 1);
    calc {
      NormalizeSegments(names + Ups(j), rooted);
    == { assert Ups(j) == Ups(j - 1) + [Parent];
         assert names + Ups(j) == s' + [Parent]; }
      NormalizeSegments(s' + [Parent], rooted);
    == { NormalizeSnoc(s', Parent, rooted); }
      Push(NormalizeSegments(s', rooted), Parent, rooted);
    ==
      Push(names[..n + 1], Parent, rooted);
    == { PopName(names[..n + 1], rooted); }
      names[..n + 1][..n];
    ==
      names[..n];
    }
  }

  /** A `..` after a name cancels it. */
  lemma PopName(acc: seq<Segment>, rooted: bool)
    requires |acc| > 0 && acc[|acc| - 1].Name?
    ensures Push(acc, Parent, rooted) == acc[..|acc| - 1]
  {
  }

  /** Climbing `m` levels out of a list of names and then descending along
      `rest` keeps the first `|names| - m` names followed by `rest`. */
  lemma ClimbThenDescend(names: seq<Segment>, m: nat, rest: seq<Segment>, rooted: bool)
    requires AllNames(names) && AllNames(rest) && m <= |names|
    ensures NormalizeSegments(names + (Ups(m) + rest), rooted) == names[..|names| - m] + rest
  {
    assert names + (Ups(m) + rest) == (names + Ups(m)) + rest;
    NormalizeAppendNames(names + Ups(m), rest, rooted);
    NormalizeUps(names, m, rooted);
  }

  /** Parsing the rendered texts of valid segments gives the segments back. */
  lemma {:induction false} ParseTexts(segs: seq<Segment>)
    requires ValidNames(segs)
    ensures ParseParts(Texts(segs)) == segs
  {
    if segs != [] {
      assert Texts(segs)[1..] == Texts(segs[1..]);
      ParseTexts(segs[1..]);
      assert [segs[0]] + segs[1..] == segs;
    }
  }

  lemma {:induction false} ParsePartsAppend(x: seq<string>, y: seq<string>)
    ensures ParseParts(x + y) == ParseParts(x) + ParseParts(y)
  {
    if x != [] {
      assert (x + y)[1..] == x[1..] + y;
      ParsePartsAppend(x[1..], y);
    } else {
      assert x + y == y;
    }
  }

  /** Render and Parse are inverse on paths whose names are valid. */
  lemma RenderParse(p: Path)
    requires ValidNames(p.segs)
    ensures Parse(Render(p)) == p
  {
    var ts := Texts(p.segs);
    var body := JoinWith(ts, '/');
    assert forall i :: 0 <= i < |ts| ==> '/' !in ts[i] by {
      forall i | 0 <= i < |ts| ensures '/' !in ts[i] {
        assert ts[i] == Text(p.segs[i]);
      }
    }
    ParseTexts(p.segs);
    if p.rooted {
      assert "/" + body == [] + ['/'] + body;
      SplitConcat([], body, '/');
      if ts == [] {
        assert Split(body, '/') == [""];
        assert ParseParts(["", ""]) == [];
      } else {
        SplitJoin(ts, '/');
        assert ParseParts([""] + ts) == ParseParts(ts) by {
          assert ([""] + ts)[1..] == ts;
        }
      }
    } else if ts == [] {
      SplitWithoutSeparator(".", '/');
    } else {
      SplitJoin(ts, '/');
      assert ts[0] <= body && ts[0] != "";
      assert body[0] == ts[0][0];
      assert '/' !in ts[0];
    }
  }

  /** A plain name parses to itself alone. */
  lemma ParseName(n: string)
    requires ValidName(n)
    ensures Parse(n) == Path(false, [Name(n)])
  {
    SplitWithoutSeparator(n, '/');
    assert ParseParts([n]) == SegmentsOf(n) + ParseParts([]);
    assert n[0] in n;
  }

  /** Joining two non-empty path strings with `/` joins their segment lists. */
  lemma ParseConcat(a: string, b: string)
    requires a != ""
    ensures Parse(a + "/" + b) == Path(Parse(a).rooted, Parse(a).segs + Parse(b).segs)
  {
    SplitConcat(a, b, '/');
    ParsePartsAppend(Split(a, '/'), Split(b, '/'));
    assert (a + "/" + b)[0] == a[0];
  }

  /** path.join on strings is Join on the parsed paths. */
  lemma JoinStringsIsJoin(a: string, b: string)
    requires a != ""
    ensures Parse(JoinStrings(a, b)) == Join(Parse(a), Parse(b))
  {
    if b == "" {
      assert Parse(b).segs == [];
      assert Parse(a).segs + [] == Parse(a).segs;
      RenderParse(Normalize(Parse(a)));
    } else {
      ParseConcat(a, b);
      RenderParse(Normalize(Parse(a + "/" + b)));
    }
  }

  lemma {:induction false} CommonPrefixOfExtension(a: seq<Segment>, b: seq<Segment>)
    ensures CommonPrefixLength(a, a + b) == |a|
  {
    if a != [] {
      assert (a + b)[1..] == a[1..] + b;
      CommonPrefixOfExtension(a[1..], b);
    }
  }

  /** A path below `base` is, relative to `base`, the list of names that leads
      down to it: path.relative(base, path.join(base, rest)) == rest. */
  lemma RelativeOfDescendant(cwd: Path, base: Path, rest: seq<Segment>)
    requires cwd.rooted && base.rooted && AllNames(rest)
    ensures Relative(cwd, base, Join(base, Path(false, rest))) == Path(false, rest)
  {
    var b := Normalize(base);
    NormalizeAppendNames(base.segs, rest, true);
    var joined := Join(base, Path(false, rest));
    assert joined == Path(true, b.segs + rest);
    NormalizeNormalized(joined);
    NormalizeIdempotent(base);
    CommonPrefixOfExtension(b.segs, rest);
    assert (b.segs + rest)[|b.segs|..] == rest;
    assert Ups(0) + rest == rest;
  }

  /** Joining the relative path onto `from` lands on `to` again:
      path.resolve(from, path.relative(from, to)) == path.resolve(to). */
  lemma JoinRelative(cwd: Path, from: Path, to: Path)
    requires cwd.rooted
    ensures Join(Resolve(cwd, from), Relative(cwd, from, to)) == Resolve(cwd, to)
  {
    var rf, rt := Resolve(cwd, from), Resolve(cwd, to);
    var f, t := rf.segs, rt.segs;
    var k := CommonPrefixLength(f, t);
    assert Relative(cwd, from, to) == Path(false, Ups(|f| - k) + t[k..]);
    assert AllNames(t[k..]);
    ClimbThenDescend(f, |f| - k, t[k..], true);
    assert t[..k] + t[k..] == t;
  }
}
