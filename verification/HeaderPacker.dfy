/**
 The single-header packer: depth-first expansion of quoted includes over one shared set of files
 already handled. The file system is a map from resolved paths to classified lines; an include line
 carries the file it resolves to, if any.
 */
module HeaderPacker {
  import opened Wrappers

  type Path = string

  datatype Line =
    | Blank(text: string)
    | PragmaOnce(text: string)
    | IfNotDefined(text: string, symbol: string)
    | Define(text: string, symbol: string)
    | EndIf(text: string)
    | Include(text: string, target: Option<Path>)
    | Code(text: string)

  /** All files there are; `source` gives, for a file, the source file beside it, if there is one. */
  datatype Files = Files(contents: map<Path, seq<Line>>, source: map<Path, Path>)

  // ----- stripping of one file

  function WithoutPragmas(lines: seq<Line>): seq<Line> {
    if lines == [] then []
    else (if lines[0].PragmaOnce? then [] else [lines[0]]) + WithoutPragmas(lines[1..])
  }

  /** Index of the first non-blank line at or after i; |lines| if there is none. */
  function NextFull(lines: seq<Line>, i: nat): (k: nat)
    requires i <= |lines|
    ensures i <= k <= |lines|
    ensures forall j :: i <= j < k ==> lines[j].Blank?
    ensures k < |lines| ==> !lines[k].Blank?
    decreases |lines| - i
  {
    if i == |lines| || !lines[i].Blank? then i else NextFull(lines, i + 1)
  }

  /** One past the last non-blank line before i, not going below `from`. */
  function LastFull(lines: seq<Line>, from: nat, i: nat): (k: nat)
    requires from <= i <= |lines|
    ensures from <= k <= i
    ensures forall j :: k <= j < i ==> lines[j].Blank?
    ensures k > from ==> !lines[k - 1].Blank?
    decreases i
  {
    if i == from || !lines[i - 1].Blank? then i else LastFull(lines, from, i - 1)
  }

  function WithoutGuardLines(lines: seq<Line>, first: nat, define: nat, last: nat): seq<Line>
    requires first < define < last < |lines|
  {
    lines[..first] + lines[define + 1..last] + lines[last + 1..]
  }

  /** Removes an include guard, if the file is wrapped in one. */
  function StripGuard(lines: seq<Line>): seq<Line> {
    if |lines| < 3 then lines
    else
      var first := NextFull(lines, 0);
      if first == |lines| || !lines[first].IfNotDefined? then lines
      else
        var define := NextFull(lines, first + 1);
        if define == |lines| || !lines[define].Define? || lines[define].symbol != lines[first].symbol then lines
        else
          var end := LastFull(lines, define + 1, |lines|);
          if end == define + 1 || !lines[end - 1].EndIf? then lines
          else WithoutGuardLines(lines, first, define, end - 1)
  }

  /** The first full line at or after `from` is line k. */
  ghost predicate FullAt(lines: seq<Line>, from: nat, k: nat) {
    from <= k < |lines| && !lines[k].Blank? && forall j :: from <= j < k ==> lines[j].Blank?
  }

  /** The last full line at or after `from` is line k. */
  ghost predicate LastFullAt(lines: seq<Line>, from: nat, k: nat) {
    from <= k < |lines| && !lines[k].Blank? && forall j :: k < j < |lines| ==> lines[j].Blank?
  }

  /**
   An include guard: the first full line is an #ifndef, the next a #define of its symbol, and the last
   full line after that an #endif.
   */
  ghost predicate GuardAt(lines: seq<Line>, first: nat, define: nat, last: nat) {
    && FullAt(lines, 0, first) && lines[first].IfNotDefined?
    && FullAt(lines, first + 1, define) && lines[define].Define? && lines[define].symbol == lines[first].symbol
    && LastFullAt(lines, define + 1, last) && lines[last].EndIf?
  }

  lemma NextFullIs(lines: seq<Line>, i: nat, k: nat)
    requires FullAt(lines, i, k)
    ensures i <= k < |lines| && NextFull(lines, i) == k
  {
    hide NextFull;
  }

  lemma LastFullIs(lines: seq<Line>, from: nat, k: nat)
    requires LastFullAt(lines, from, k)
    ensures from <= k < |lines| && LastFull(lines, from, |lines|) == k + 1
  {
    hide LastFull;
  }

  /** Stripping removes exactly the three lines of a guard. */
  lemma {:induction false} GuardFound(lines: seq<Line>, first: nat, define: nat, last: nat)
    requires GuardAt(lines, first, define, last)
    ensures first < define < last < |lines| && StripGuard(lines) == WithoutGuardLines(lines, first, define, last)
  {
    hide WithoutGuardLines;
    NextFullIs(lines, 0, first);
    NextFullIs(lines, first + 1, define);
    LastFullIs(lines, define + 1, last);
    hide NextFull, LastFull, FullAt, LastFullAt;
  }

  lemma NextFullAt(lines: seq<Line>, i: nat)
    requires i <= |lines|
    ensures NextFull(lines, i) < |lines| ==> FullAt(lines, i, NextFull(lines, i))
  {
    hide NextFull;
  }

  lemma LastFullThere(lines: seq<Line>, from: nat)
    requires from <= |lines|
    ensures var k := LastFull(lines, from, |lines|); k > from ==> LastFullAt(lines, from, k - 1)
  {
    hide LastFull;
  }

  /** A file that is changed at all has a guard. */
  lemma {:induction false} ChangedHasGuard(lines: seq<Line>) returns (first: nat, define: nat, last: nat)
    requires StripGuard(lines) != lines
    ensures GuardAt(lines, first, define, last)
  {
    hide WithoutGuardLines;
    first := NextFull(lines, 0);
    NextFullAt(lines, 0);
    define := NextFull(lines, first + 1);
    NextFullAt(lines, first + 1);
    var end := LastFull(lines, define + 1, |lines|);
    LastFullThere(lines, define + 1);
    last := end - 1;
    hide NextFull, LastFull, FullAt, LastFullAt;
  }

  /** A file is changed exactly if it has a guard, and then it loses exactly the three lines of it. */
  lemma StripsOnlyGuards(lines: seq<Line>)
    ensures forall first: nat, define: nat, last: nat :: GuardAt(lines, first, define, last) ==>
      first < define < last < |lines| && StripGuard(lines) == lines[..first] + lines[define + 1..last] + lines[last + 1..]
    ensures StripGuard(lines) == lines <==> forall first: nat, define: nat, last: nat :: !GuardAt(lines, first, define, last)
  {
    hide StripGuard, GuardAt;
    forall first: nat, define: nat, last: nat | GuardAt(lines, first, define, last)
      ensures first < define < last < |lines|
      ensures StripGuard(lines) == lines[..first] + lines[define + 1..last] + lines[last + 1..]
      ensures |StripGuard(lines)| < |lines|
    {
      GuardFound(lines, first, define, last);
    }
    if StripGuard(lines) != lines {
      var first, define, last := ChangedHasGuard(lines);
    }
  }

  predicate AllBlank(lines: seq<Line>) {
    forall l :: l in lines ==> l.Blank?
  }

  /** Wrapping a body in a guard and stripping it gives the body back, with the blank lines around it. */
  lemma StripUndoesGuard(before: seq<Line>, open: Line, between: seq<Line>, define: Line, body: seq<Line>, close: Line, after: seq<Line>)
    requires AllBlank(before) && AllBlank(between) && AllBlank(after)
    requires open.IfNotDefined? && define.Define? && define.symbol == open.symbol && close.EndIf?
    ensures StripGuard(before + [open] + between + [define] + body + [close] + after) == before + body + after
  {
    hide StripGuard;
    var lines := before + [open] + between + [define] + body + [close] + after;
    var first, def := |before|, |before| + 1 + |between|;
    var last := def + 1 + |body|;
    assert lines[first] == open && lines[def] == define && lines[last] == close;
    BlankRun(lines, before, 0);
    BlankRun(lines, between, first + 1);
    BlankRun(lines, after, last + 1);
    assert lines[..first] == before && lines[def + 1..last] == body && lines[last + 1..] == after;
    GuardFound(lines, first, def, last);
  }

  lemma BlankRun(lines: seq<Line>, part: seq<Line>, at: nat)
    requires AllBlank(part) && at + |part| <= |lines| && lines[at..at + |part|] == part
    ensures forall j :: at <= j < at + |part| ==> lines[j].Blank?
  {
    forall j | at <= j < at + |part|
      ensures lines[j].Blank?
    {
      assert lines[j] == part[j - at] && part[j - at] in part;
    }
  }

  /** The cases in which there is no guard: each line that should make one is something else. */
  lemma WithoutGuard(lines: seq<Line>, first: nat, define: nat, last: nat)
    requires FullAt(lines, 0, first)
    requires || !lines[first].IfNotDefined?
             || (FullAt(lines, first + 1, define) && (!lines[define].Define? || lines[define].symbol != lines[first].symbol))
             || (FullAt(lines, first + 1, define) && LastFullAt(lines, define + 1, last) && !lines[last].EndIf?)
    ensures StripGuard(lines) == lines
  {
    hide StripGuard;
    StripsOnlyGuards(lines);
  }

  /** The places of the lines that are no #pragma once, in order. */
  ghost function Places(lines: seq<Line>): (kept: seq<nat>)
    ensures forall i :: 0 <= i < |kept| ==> kept[i] < |lines|
  {
    if lines == [] then []
    else
      var before := |lines| - 1;
      Places(lines[..before]) + (if lines[before].PragmaOnce? then [] else [before])
  }

  /** They are in order and all there. */
  lemma {:induction false} PlacesExact(lines: seq<Line>)
    ensures forall i, j :: 0 <= i < j < |Places(lines)| ==> Places(lines)[i] < Places(lines)[j]
    ensures forall k: nat :: k in Places(lines) <==> k < |lines| && !lines[k].PragmaOnce?
    decreases |lines|
  {
    if lines != [] {
      PlacesExact(lines[..|lines| - 1]);
    }
  }

  lemma {:induction false} PragmasLast(lines: seq<Line>, l: Line)
    ensures WithoutPragmas(lines + [l]) == WithoutPragmas(lines) + (if l.PragmaOnce? then [] else [l])
    decreases |lines|
  {
    if lines != [] {
      assert (lines + [l])[1..] == lines[1..] + [l];
      PragmasLast(lines[1..], l);
    } else {
      assert (lines + [l])[1..] == [];
    }
  }

  /** Removing #pragma once keeps exactly the other lines, in their order. */
  lemma {:induction false} OnlyPragmasGo(lines: seq<Line>)
    ensures |WithoutPragmas(lines)| == |Places(lines)|
    ensures forall i :: 0 <= i < |Places(lines)| ==> WithoutPragmas(lines)[i] == lines[Places(lines)[i]]
    decreases |lines|
  {
    if lines != [] {
      var n := |lines| - 1;
      OnlyPragmasGo(lines[..n]);
      PragmasLast(lines[..n], lines[n]);
      hide WithoutPragmas;
      assert lines == lines[..n] + [lines[n]];
    }
  }

  function Stripped(fs: Files, f: Path): seq<Line> {
    if f in fs.contents then StripGuard(WithoutPragmas(fs.contents[f])) else []
  }

  // ----- the include graph

  function Target(l: Line): Option<Path> {
    if l.Include? then l.target else None
  }

  /** A line is copied unless it is an include that resolves. */
  predicate Copied(l: Line) {
    Target(l).None?
  }

  ghost predicate Edge(fs: Files, f: Path, g: Path) {
    exists l :: l in Stripped(fs, f) && Target(l) == Some(g)
  }

  /** An include resolves only to a file that exists: a header or a source. */
  ghost predicate Closed(fs: Files) {
    forall f, g :: f in fs.contents && Edge(fs, f, g) ==> g in fs.contents
  }

  ghost predicate IsPath(fs: Files, f: Path, path: seq<Path>, g: Path)
    decreases path
  {
    if path == [] then f == g else Edge(fs, f, path[0]) && IsPath(fs, path[0], path[1..], g)
  }

  ghost predicate Reaches(fs: Files, f: Path, g: Path) {
    exists path :: IsPath(fs, f, path, g)
  }

  // ----- expansion

  /** One copied line: which file, and which of its stripped lines. */
  datatype Emit = Emit(file: Path, index: nat)

  /** The files handled afterwards, the lines copied and the sources found on the way. */
  datatype Expansion = Expansion(included: set<Path>, out: seq<Emit>, sources: seq<Path>)

  function Left(fs: Files, included: set<Path>): nat {
    |fs.contents.Keys - included|
  }

  lemma LeftShrinks(fs: Files, a: set<Path>, b: set<Path>)
    requires a <= b
    ensures Left(fs, b) <= Left(fs, a)
    ensures forall f :: f in fs.contents && f in b && f !in a ==> Left(fs, b) < Left(fs, a)
  {
    var x, y := fs.contents.Keys - a, fs.contents.Keys - b;
    CardinalityGrows(y, x);
    forall f | f in fs.contents && f in b && f !in a
      ensures |y| < |x|
    {
      CardinalityGrows(y, x - {f});
    }
  }

  lemma {:induction false} CardinalityGrows(a: set<Path>, b: set<Path>)
    requires a <= b
    ensures |a| <= |b|
  {
    if a != {} {
      var p :| p in a;
      CardinalityGrows(a - {p}, b - {p});
    }
  }

  /** _expand_file: nothing for a file handled before; otherwise its lines, then its source. */
  ghost function ExpandFile(fs: Files, f: Path, included: set<Path>): (r: Expansion)
    requires Closed(fs) && f in fs.contents
    ensures included <= r.included && f in r.included
    decreases Left(fs, included), 0
  {
    if f in included then Expansion(included, [], [])
    else
      LeftShrinks(fs, included, included + {f});
      var r := ExpandLines(fs, f, 0, included + {f});
      if f in fs.source && fs.source[f] !in r.included
      then Expansion(r.included + {fs.source[f]}, r.out, r.sources + [fs.source[f]])
      else r
  }

  /** The loop over the stripped lines of f, from line k. */
  ghost function ExpandLines(fs: Files, f: Path, k: nat, included: set<Path>): (r: Expansion)
    requires Closed(fs) && f in fs.contents && k <= |Stripped(fs, f)|
    ensures included <= r.included
    decreases Left(fs, included), 1 + |Stripped(fs, f)| - k
  {
    if k == |Stripped(fs, f)| then Expansion(included, [], [])
    else
      var t := Target(Stripped(fs, f)[k]);
      if t.Some? then
        assert Edge(fs, f, t.value);
        var sub := ExpandFile(fs, t.value, included);
        LeftShrinks(fs, included, sub.included);
        var rest := ExpandLines(fs, f, k + 1, sub.included);
        Expansion(rest.included, sub.out + rest.out, sub.sources + rest.sources)
      else
        var rest := ExpandLines(fs, f, k + 1, included);
        Expansion(rest.included, [Emit(f, k)] + rest.out, rest.sources)
  }

  // ----- every file once

  ghost predicate Emits(fs: Files, e: Emit) {
    e.file in fs.contents && e.index < |Stripped(fs, e.file)| && Copied(Stripped(fs, e.file)[e.index])
  }

  /** The lines of each file in their own order; in particular no line twice. */
  ghost predicate InOrder(out: seq<Emit>) {
    forall i, j :: 0 <= i < j < |out| && out[i].file == out[j].file ==> out[i].index < out[j].index
  }

  /** A file expanded here and not handled before. A source set aside is handled but not expanded. */
  ghost predicate New(fs: Files, included: set<Path>, r: Expansion, h: Path) {
    h in fs.contents && h in r.included && h !in included && h !in r.sources
  }

  /** The source set aside belongs to another file, which was expanded here. */
  ghost predicate BesideNew(fs: Files, included: set<Path>, r: Expansion, s: Path) {
    exists h :: New(fs, included, r, h) && h in fs.source && fs.source[h] == s && h != s
  }

  /** Each source is set aside once and belongs to a file expanded here; no file misses its source. */
  ghost predicate SourcesExact(fs: Files, included: set<Path>, r: Expansion) {
    && (forall s :: s in r.sources ==> s in r.included && s !in included && BesideNew(fs, included, r, s))
    && (forall i, j :: 0 <= i < j < |r.sources| ==> r.sources[i] != r.sources[j])
    && (forall h :: New(fs, included, r, h) && h in fs.source ==> fs.source[h] in r.included)
  }

  /** What one expansion adds: all lines of the new files, once, and all they include is handled. */
  ghost predicate Exact(fs: Files, f: Path, included: set<Path>, r: Expansion) {
    && InOrder(r.out) && SourcesExact(fs, included, r)
    && (forall e :: e in r.out <==> New(fs, included, r, e.file) && Emits(fs, e))
    && (forall h, g :: New(fs, included, r, h) && Edge(fs, h, g) ==> g in r.included)
    && (forall h :: New(fs, included, r, h) ==> Reaches(fs, f, h))
  }

  /** The include on line m of h leads to t. */
  ghost predicate IncludesAt(fs: Files, h: Path, m: nat, t: Path) {
    m < |Stripped(fs, h)| && Target(Stripped(fs, h)[m]) == Some(t)
  }

  /** The same for the lines of f from k on. */
  ghost predicate ExactLines(fs: Files, f: Path, k: nat, included: set<Path>, r: Expansion) {
    && InOrder(r.out) && SourcesExact(fs, included, r)
    && (forall e :: e in r.out <==> (New(fs, included, r, e.file) || (e.file == f && e.index >= k)) && Emits(fs, e))
    && (forall h, g :: New(fs, included, r, h) && Edge(fs, h, g) ==> g in r.included)
    && (forall h :: New(fs, included, r, h) ==> Reaches(fs, f, h))
    && (forall m: nat, t :: m >= k && IncludesAt(fs, f, m, t) ==> t in r.included)
  }

  lemma ReachesSelf(fs: Files, f: Path)
    ensures Reaches(fs, f, f)
  {
    assert IsPath(fs, f, [], f);
  }

  lemma EdgeReaches(fs: Files, f: Path, g: Path, h: Path)
    requires Edge(fs, f, g) && Reaches(fs, g, h)
    ensures Reaches(fs, f, h)
  {
    var path :| IsPath(fs, g, path, h);
    assert ([g] + path)[1..] == path;
    assert IsPath(fs, f, [g] + path, h);
  }

  lemma {:induction false} PathExtends(fs: Files, f: Path, path: seq<Path>, g: Path, h: Path)
    requires IsPath(fs, f, path, g) && Edge(fs, g, h)
    ensures Reaches(fs, f, h)
    decreases path
  {
    if path == [] {
      ReachesSelf(fs, h);
      EdgeReaches(fs, f, h, h);
    } else {
      PathExtends(fs, path[0], path[1..], g, h);
      EdgeReaches(fs, f, path[0], h);
    }
  }

  lemma ReachesOn(fs: Files, f: Path, g: Path, h: Path)
    requires Reaches(fs, f, g) && Edge(fs, g, h)
    ensures Reaches(fs, f, h)
  {
    var path :| IsPath(fs, f, path, g);
    PathExtends(fs, f, path, g, h);
  }

  lemma {:induction false} ReachesThrough(fs: Files, f: Path, g: Path, path: seq<Path>, h: Path)
    requires Reaches(fs, f, g) && IsPath(fs, g, path, h)
    ensures Reaches(fs, f, h)
    decreases path
  {
    if path != [] {
      ReachesOn(fs, f, g, path[0]);
      ReachesThrough(fs, f, path[0], path[1..], h);
    }
  }

  lemma ReachesTransitive(fs: Files, f: Path, g: Path, h: Path)
    requires Reaches(fs, f, g) && Reaches(fs, g, h)
    ensures Reaches(fs, f, h)
  {
    var path :| IsPath(fs, g, path, h);
    ReachesThrough(fs, f, g, path, h);
  }

  /** A set closed under includes holds everything reachable from its members. */
  lemma {:induction false} ClosedUnderReach(fs: Files, s: set<Path>, f: Path, path: seq<Path>, g: Path)
    requires forall a, b :: a in s && Edge(fs, a, b) ==> b in s
    requires f in s && IsPath(fs, f, path, g)
    ensures g in s
    decreases path
  {
    if path != [] {
      ClosedUnderReach(fs, s, path[0], path[1..], g);
    }
  }

  lemma {:induction false} FileExact(fs: Files, f: Path, included: set<Path>)
    requires Closed(fs) && f in fs.contents
    ensures Exact(fs, f, included, ExpandFile(fs, f, included))
    decreases Left(fs, included), 0
  {
    hide Edge, Emits, Reaches, Stripped, Left;
    if f !in included {
      LeftShrinks(fs, included, included + {f});
      LinesExact(fs, f, 0, included + {f});
      ReachesSelf(fs, f);
      EdgesAreTargets(fs, f);
      FileClosed(fs, f, included, ExpandLines(fs, f, 0, included + {f}));
    }
  }

  /** From the lines of f to f itself: its source is set aside unless it was handled. */
  lemma FileClosed(fs: Files, f: Path, included: set<Path>, r: Expansion)
    requires f in fs.contents && f !in included && included + {f} <= r.included
    requires ExactLines(fs, f, 0, included + {f}, r) && Reaches(fs, f, f)
    requires forall g :: Edge(fs, f, g) ==> exists m: nat :: IncludesAt(fs, f, m, g)
    ensures Exact(fs, f, included,
              if f in fs.source && fs.source[f] !in r.included
              then Expansion(r.included + {fs.source[f]}, r.out, r.sources + [fs.source[f]]) else r)
  {
    hide Edge, Emits, Reaches, IncludesAt, BesideNew;
    var added := f in fs.source && fs.source[f] !in r.included;
    var whole := if added then Expansion(r.included + {fs.source[f]}, r.out, r.sources + [fs.source[f]]) else r;
    forall h
      ensures New(fs, included, whole, h) <==> New(fs, included + {f}, r, h) || h == f
    {
    }
    forall s | s in whole.sources
      ensures BesideNew(fs, included, whole, s)
    {
      if s in r.sources {
        BesideMoves(fs, included + {f}, r, included, whole, s);
      } else {
        OwnSource(fs, included, whole, f);
      }
    }
  }

  lemma BesideMoves(fs: Files, a: set<Path>, r: Expansion, b: set<Path>, q: Expansion, s: Path)
    requires BesideNew(fs, a, r, s) && forall h :: New(fs, a, r, h) ==> New(fs, b, q, h)
    ensures BesideNew(fs, b, q, s)
  {
    hide New;
  }

  lemma OwnSource(fs: Files, included: set<Path>, r: Expansion, f: Path)
    requires New(fs, included, r, f) && f in fs.source && fs.source[f] != f
    ensures BesideNew(fs, included, r, fs.source[f])
  {
    hide New;
  }

  lemma EdgesAreTargets(fs: Files, f: Path)
    ensures forall g :: Edge(fs, f, g) ==> exists m: nat :: IncludesAt(fs, f, m, g)
  {
    forall g | Edge(fs, f, g)
      ensures exists m: nat :: IncludesAt(fs, f, m, g)
    {
      var l :| l in Stripped(fs, f) && Target(l) == Some(g);
      var m :| 0 <= m < |Stripped(fs, f)| && Stripped(fs, f)[m] == l;
      assert IncludesAt(fs, f, m, g);
    }
  }

  /** What an include adds and what the lines after it add: files and sources of both, and no others. */
  lemma JoinNew(fs: Files, included: set<Path>, sub: Expansion, rest: Expansion)
    requires included <= sub.included <= rest.included
    requires SourcesExact(fs, included, sub) && SourcesExact(fs, sub.included, rest)
    ensures var r := Expansion(rest.included, sub.out + rest.out, sub.sources + rest.sources);
            && (forall h :: New(fs, included, r, h) <==> New(fs, included, sub, h) || New(fs, sub.included, rest, h))
            && SourcesExact(fs, included, r)
  {
    hide BesideNew;
    var r := Expansion(rest.included, sub.out + rest.out, sub.sources + rest.sources);
    forall s | s in r.sources
      ensures BesideNew(fs, included, r, s)
    {
      if s in sub.sources {
        BesideMoves(fs, included, sub, included, r, s);
      } else {
        BesideMoves(fs, sub.included, rest, included, r, s);
      }
    }
    var n := |sub.sources|;
    forall i, j | 0 <= i < j < |r.sources|
      ensures r.sources[i] != r.sources[j]
    {
      if i < n <= j {
        assert r.sources[i] == sub.sources[i] && sub.sources[i] in sub.sources;
        assert r.sources[j] == rest.sources[j - n] && rest.sources[j - n] in rest.sources;
      } else if j < n {
        assert r.sources[i] == sub.sources[i] && r.sources[j] == sub.sources[j];
      } else {
        assert r.sources[i] == rest.sources[i - n] && r.sources[j] == rest.sources[j - n];
      }
    }
  }

  lemma JoinIncluded(fs: Files, f: Path, k: nat, included: set<Path>, t: Path, sub: Expansion, rest: Expansion)
    requires f in included && included <= sub.included <= rest.included && Edge(fs, f, t) && IncludesAt(fs, f, k, t)
    requires t in sub.included && Exact(fs, t, included, sub) && ExactLines(fs, f, k + 1, sub.included, rest)
    ensures ExactLines(fs, f, k, included, Expansion(rest.included, sub.out + rest.out, sub.sources + rest.sources))
  {
    hide Reaches, Stripped, Edge, IsPath, SourcesExact;
    forall h | New(fs, included, sub, h)
      ensures Reaches(fs, f, h)
    {
      EdgeReaches(fs, f, t, h);
    }
    JoinNew(fs, included, sub, rest);
  }

  lemma JoinCopied(fs: Files, f: Path, k: nat, included: set<Path>, rest: Expansion)
    requires f in included && included <= rest.included && ExactLines(fs, f, k + 1, included, rest)
    requires Emits(fs, Emit(f, k))
    ensures ExactLines(fs, f, k, included, Expansion(rest.included, [Emit(f, k)] + rest.out, rest.sources))
  {
    hide Reaches, Stripped, Edge, IsPath;
  }

  lemma {:induction false} LinesExact(fs: Files, f: Path, k: nat, included: set<Path>)
    requires Closed(fs) && f in fs.contents && f in included && k <= |Stripped(fs, f)|
    ensures ExactLines(fs, f, k, included, ExpandLines(fs, f, k, included))
    decreases Left(fs, included), 1 + |Stripped(fs, f)| - k
  {
    hide Reaches, Stripped, Left, Exact, IsPath;
    if k < |Stripped(fs, f)| {
      var t := Target(Stripped(fs, f)[k]);
      if t.Some? {
        hide ExactLines;
        assert Edge(fs, f, t.value);
        var sub := ExpandFile(fs, t.value, included);
        LeftShrinks(fs, included, sub.included);
        FileExact(fs, t.value, included);
        LinesExact(fs, f, k + 1, sub.included);
        JoinIncluded(fs, f, k, included, t.value, sub, ExpandLines(fs, f, k + 1, sub.included));
      } else {
        hide ExactLines;
        LinesExact(fs, f, k + 1, included);
        JoinCopied(fs, f, k, included, ExpandLines(fs, f, k + 1, included));
      }
    }
  }

  /** The files whose lines an expansion from scratch copies. */
  ghost predicate Expanded(fs: Files, r: Expansion, h: Path) {
    New(fs, {}, r, h)
  }

  /**
   On every include graph, cyclic or not: each copied line of each expanded file once, in file order, and
   nothing else; the expanded files are reachable from the entry, all they include is expanded or set
   aside, and their sources are expanded or set aside, each at most once.
   */
  lemma PacksOnce(fs: Files, entry: Path)
    requires Closed(fs) && entry in fs.contents
    ensures var r := ExpandFile(fs, entry, {});
            && InOrder(r.out)
            && (forall e :: e in r.out <==> Expanded(fs, r, e.file) && Emits(fs, e))
            && Expanded(fs, r, entry)
            && (forall h :: Expanded(fs, r, h) ==> Reaches(fs, entry, h))
            && (forall h, g :: Expanded(fs, r, h) && Edge(fs, h, g) ==> Expanded(fs, r, g) || g in r.sources)
            && SourcesExact(fs, {}, r)
  {
    hide Edge, Emits, Reaches, Closed, ExpandLines;
    var r := ExpandFile(fs, entry, {});
    FileExact(fs, entry, {});
    forall h, g | Expanded(fs, r, h) && Edge(fs, h, g)
      ensures Expanded(fs, r, g) || g in r.sources
    {
      EdgeTarget(fs, h, g);
    }
    EntryExpanded(fs, entry);
  }

  lemma EdgeTarget(fs: Files, h: Path, g: Path)
    requires Closed(fs) && h in fs.contents && Edge(fs, h, g)
    ensures g in fs.contents
  {
  }

  /** The entry is handled before any source is set aside. */
  lemma EntryExpanded(fs: Files, entry: Path)
    requires Closed(fs) && entry in fs.contents
    ensures entry in ExpandFile(fs, entry, {}).included && entry !in ExpandFile(fs, entry, {}).sources
  {
    hide Edge, Emits, Reaches, Stripped, BesideNew, IncludesAt;
    LinesExact(fs, entry, 0, {entry});
    assert {} + {entry} == {entry};
  }

  /**
   The expanded files are exactly those reachable from the entry if and only if none of the sources set
   aside is reachable: such a source would be included in full, but counts as handled.
   */
  lemma PacksReachableIff(fs: Files, entry: Path)
    requires Closed(fs) && entry in fs.contents
    ensures var r := ExpandFile(fs, entry, {});
            (forall h :: Expanded(fs, r, h) <==> Reaches(fs, entry, h)) <==> (forall s :: s in r.sources ==> !Reaches(fs, entry, s))
  {
    hide Edge, Emits, Reaches, ExpandFile, SourcesExact;
    var r := ExpandFile(fs, entry, {});
    PacksOnce(fs, entry);
    if forall s :: s in r.sources ==> !Reaches(fs, entry, s) {
      var all := set h | h in r.included && Expanded(fs, r, h);
      forall a, b | a in all && Edge(fs, a, b)
        ensures b in all
      {
        ReachesOn(fs, entry, a, b);
      }
      forall h | Reaches(fs, entry, h)
        ensures Expanded(fs, r, h)
      {
        ReachedIsIn(fs, all, entry, h);
      }
    }
  }

  /** No reachable file is the source beside another reachable file, so none is set aside and included. */
  ghost predicate Separate(fs: Files, entry: Path) {
    forall h :: Reaches(fs, entry, h) && h in fs.source && fs.source[h] != h ==> !Reaches(fs, entry, fs.source[h])
  }

  /**
   So if headers include no sources of theirs, exactly the reachable files are expanded, and each of
   their copied lines appears once.
   */
  lemma PacksReachableOnce(fs: Files, entry: Path)
    requires Closed(fs) && entry in fs.contents && Separate(fs, entry)
    ensures var r := ExpandFile(fs, entry, {});
            && (forall h :: Expanded(fs, r, h) <==> Reaches(fs, entry, h))
            && InOrder(r.out)
            && (forall e :: e in r.out <==> Reaches(fs, entry, e.file) && Emits(fs, e))
  {
    hide Edge, Emits, Reaches, Closed, ExpandFile, New;
    PacksOnce(fs, entry);
    PacksReachableIff(fs, entry);
  }

  lemma ShortFile(fs: Files, f: Path)
    requires f in fs.contents && |fs.contents[f]| < 3 && forall l :: l in fs.contents[f] ==> !l.PragmaOnce?
    ensures Stripped(fs, f) == fs.contents[f]
  {
    PragmasGone(fs.contents[f]);
  }

  lemma {:induction false} PragmasGone(lines: seq<Line>)
    requires forall l :: l in lines ==> !l.PragmaOnce?
    ensures WithoutPragmas(lines) == lines
  {
    if lines != [] {
      PragmasGone(lines[1..]);
    }
  }

  lemma {:induction false} FirstPragmaGone(pragma: Line, rest: seq<Line>)
    requires pragma.PragmaOnce? && forall l :: l in rest ==> !l.PragmaOnce?
    ensures WithoutPragmas([pragma] + rest) == rest
  {
    PragmasGone(rest);
    assert ([pragma] + rest)[1..] == rest;
  }

  /** Pragmas go first, so a guard behind one is still found. */
  lemma {:induction false} PragmaBeforeGuard(fs: Files, f: Path, pragma: Line, open: Line, define: Line, body: seq<Line>, close: Line)
    requires f in fs.contents && fs.contents[f] == [pragma] + ([] + [open] + [] + [define] + body + [close] + [])
    requires pragma.PragmaOnce? && open.IfNotDefined? && define.Define? && define.symbol == open.symbol && close.EndIf?
    requires forall l :: l in body ==> !l.PragmaOnce?
    ensures Stripped(fs, f) == body
  {
    hide StripGuard, WithoutPragmas;
    FirstPragmaGone(pragma, [] + [open] + [] + [define] + body + [close] + []);
    StripUndoesGuard([], open, [], define, body, close, []);
  }

  /** "a" includes "b", whose source is "c", and then "c" itself. */
  function SourceIncluded(): Files {
    Files(map["a" := [Include("", Some("b")), Include("", Some("c"))], "b" := [Code("x")], "c" := [Code("y")]], map["b" := "c"])
  }

  lemma {:induction false} SourceIncludedLines()
    ensures var fs := SourceIncluded();
            && Closed(fs)
            && Stripped(fs, "a") == [Include("", Some("b")), Include("", Some("c"))]
            && Stripped(fs, "b") == [Code("x")] && Stripped(fs, "c") == [Code("y")]
  {
    var fs := SourceIncluded();
    ShortFile(fs, "a");
    ShortFile(fs, "b");
    ShortFile(fs, "c");
    hide Stripped;
  }

  /**
   An include of the source beside an earlier header is lost: the source is reachable and has lines, but
   it was set aside with its header, so its lines are in no part of the expansion.
   */
  lemma IncludedSourceIsLost()
    ensures var fs, r := SourceIncluded(), ExpandFile(SourceIncluded(), "a", {});
            Reaches(fs, "a", "c") && Emits(fs, Emit("c", 0)) && Emit("c", 0) !in r.out && r.sources == ["c"]
  {
    var fs := SourceIncluded();
    SourceIncludedLines();
    hide Stripped, Closed, Left;
    EdgeAt(fs, "a", 1, "c");
    ReachesSelf(fs, "c");
    EdgeReaches(fs, "a", "c", "c");
    hide Reaches, Edge, Emits;
    assert {"a"} + {"b"} == {"a", "b"} && {} + {"a"} == {"a"} && {"a", "b"} + {"c"} == {"a", "b", "c"};
    assert ExpandLines(fs, "b", 1, {"a", "b"}) == Expansion({"a", "b"}, [], []);
    assert ExpandLines(fs, "b", 0, {"a", "b"}) == Expansion({"a", "b"}, [Emit("b", 0)], []);
    assert ExpandFile(fs, "b", {"a"}) == Expansion({"a", "b", "c"}, [Emit("b", 0)], ["c"]);
    assert ExpandLines(fs, "a", 2, {"a", "b", "c"}) == Expansion({"a", "b", "c"}, [], []);
    assert ExpandLines(fs, "a", 1, {"a", "b", "c"}) == Expansion({"a", "b", "c"}, [], []);
    EmitsAt(fs, "c", 0);
  }

  lemma EdgeAt(fs: Files, f: Path, m: nat, t: Path)
    requires IncludesAt(fs, f, m, t)
    ensures Edge(fs, f, t)
  {
    assert Stripped(fs, f)[m] in Stripped(fs, f);
  }

  lemma EmitsAt(fs: Files, f: Path, k: nat)
    requires f in fs.contents && k < |Stripped(fs, f)| && Copied(Stripped(fs, f)[k])
    ensures Emits(fs, Emit(f, k))
  {
  }

  lemma ReachedIsIn(fs: Files, s: set<Path>, f: Path, g: Path)
    requires forall a, b :: a in s && Edge(fs, a, b) ==> b in s
    requires f in s && Reaches(fs, f, g)
    ensures g in s
  {
    var path :| IsPath(fs, f, path, g);
    ClosedUnderReach(fs, s, f, path, g);
  }

  // ----- what a header includes comes first, unless the include leads back

  /** All lines of h have been copied. */
  ghost predicate AllOut(fs: Files, out: seq<Emit>, h: Path) {
    forall e: Emit :: e.file == h && Emits(fs, e) ==> e in out
  }

  /** All lines of everything reachable from t have been copied. */
  ghost predicate AllBelowOut(fs: Files, out: seq<Emit>, t: Path) {
    forall u :: Reaches(fs, t, u) ==> AllOut(fs, out, u)
  }

  /** Every line comes after all lines of everything reachable through the includes before it. */
  ghost predicate DependenciesFirst(fs: Files, out: seq<Emit>) {
    forall j, m: nat, t :: 0 <= j < |out| && m < out[j].index && IncludesAt(fs, out[j].file, m, t) ==> AllBelowOut(fs, out[..j], t)
  }

  /** No include of h that comes before a copied line of h leads back to h. */
  ghost predicate Orderable(fs: Files, h: Path) {
    forall m: nat, t, k: nat :: m < k && IncludesAt(fs, h, m, t) && Emits(fs, Emit(h, k)) ==> !Reaches(fs, t, h)
  }

  ghost predicate AllOrderable(fs: Files, entry: Path) {
    forall h :: Reaches(fs, entry, h) ==> Orderable(fs, h)
  }

  ghost predicate Acyclic(fs: Files) {
    forall f, g :: Edge(fs, f, g) ==> !Reaches(fs, g, f)
  }

  /**
   `grey` holds the files being expanded, `prior` the lines copied so far. A handled file that is
   reachable and not grey is black: all its lines are out and all it includes is handled.
   */
  ghost predicate BlackDone(fs: Files, entry: Path, included: set<Path>, grey: set<Path>, prior: seq<Emit>) {
    forall h :: h in fs.contents && h in included && Reaches(fs, entry, h) && h !in grey ==>
      && AllOut(fs, prior, h)
      && (forall g :: Edge(fs, h, g) ==> g in included)
  }

  lemma BlackBelow(fs: Files, entry: Path, included: set<Path>, grey: set<Path>, prior: seq<Emit>, t: Path)
    requires Closed(fs) && BlackDone(fs, entry, included, grey, prior) && t in fs.contents && t in included && Reaches(fs, entry, t)
    requires forall g :: g in grey ==> !Reaches(fs, t, g)
    ensures AllBelowOut(fs, prior, t)
  {
    hide AllOut, Reaches;
    ReachesSelf(fs, t);
    var black := set h | h in included && h in fs.contents && Reaches(fs, t, h);
    forall a, b | a in black && Edge(fs, a, b)
      ensures b in black
    {
      ReachesTransitive(fs, entry, t, a);
      ReachesOn(fs, t, a, b);
    }
    forall u | Reaches(fs, t, u)
      ensures AllOut(fs, prior, u)
    {
      ReachesTransitive(fs, entry, t, u);
      ReachedIsIn(fs, black, t, u);
    }
  }

  lemma DependenciesAppend(fs: Files, prior: seq<Emit>, e: Emit)
    requires DependenciesFirst(fs, prior)
    requires forall m: nat, t :: m < e.index && IncludesAt(fs, e.file, m, t) ==> AllBelowOut(fs, prior, t)
    ensures DependenciesFirst(fs, prior + [e])
  {
    hide AllBelowOut, IncludesAt;
    forall j | 0 <= j < |prior| + 1
      ensures (prior + [e])[..j] == prior[..j]
    {
    }
    assert prior[..|prior|] == prior;
  }

  /** A line of f may be copied now: no include above it leads to a header still being expanded. */
  lemma LineInOrder(fs: Files, entry: Path, f: Path, k: nat, included: set<Path>, grey: set<Path>, prior: seq<Emit>)
    requires Closed(fs) && Orderable(fs, f) && Reaches(fs, entry, f) && f in fs.contents && Emits(fs, Emit(f, k))
    requires BlackDone(fs, entry, included, grey, prior) && DependenciesFirst(fs, prior)
    requires forall g :: g in grey ==> Reaches(fs, g, f)
    requires forall m: nat, t :: m < k && IncludesAt(fs, f, m, t) ==> t in included
    ensures DependenciesFirst(fs, prior + [Emit(f, k)])
  {
    hide Reaches, DependenciesFirst, Stripped, BlackDone, AllBelowOut;
    forall m: nat, u | m < k && IncludesAt(fs, f, m, u)
      ensures AllBelowOut(fs, prior, u)
    {
      assert Edge(fs, f, u);
      forall g | g in grey
        ensures !Reaches(fs, u, g)
      {
        if Reaches(fs, u, g) {
          ReachesTransitive(fs, u, g, f);
        }
      }
      ReachesOn(fs, entry, f, u);
      BlackBelow(fs, entry, included, grey, prior, u);
    }
    DependenciesAppend(fs, prior, Emit(f, k));
  }

  lemma {:induction false} FileOrdered(fs: Files, entry: Path, f: Path, included: set<Path>, grey: set<Path>, prior: seq<Emit>)
    requires Closed(fs) && Separate(fs, entry) && AllOrderable(fs, entry) && Reaches(fs, entry, f)
    requires f in fs.contents && f !in included && grey <= included
    requires BlackDone(fs, entry, included, grey, prior) && DependenciesFirst(fs, prior)
    requires forall g :: g in grey ==> Reaches(fs, g, f)
    ensures var r := ExpandFile(fs, f, included);
            BlackDone(fs, entry, r.included, grey, prior + r.out) && DependenciesFirst(fs, prior + r.out)
    decreases Left(fs, included), 0
  {
    hide Edge, Reaches, Stripped, Left, AllOut, DependenciesFirst, AllOrderable, IsPath;
    LeftShrinks(fs, included, included + {f});
    ReachesSelf(fs, f);
    LinesOrdered(fs, entry, f, 0, included + {f}, grey + {f}, prior);
    EdgesAreTargets(fs, f);
  }

  lemma {:induction false} LinesOrdered(fs: Files, entry: Path, f: Path, k: nat, included: set<Path>, grey: set<Path>, prior: seq<Emit>)
    requires Closed(fs) && Separate(fs, entry) && AllOrderable(fs, entry) && Reaches(fs, entry, f)
    requires f in fs.contents && k <= |Stripped(fs, f)| && f in grey && grey <= included
    requires BlackDone(fs, entry, included, grey, prior) && DependenciesFirst(fs, prior)
    requires forall g :: g in grey ==> Reaches(fs, g, f)
    requires forall m: nat, t :: m < k && IncludesAt(fs, f, m, t) ==> t in included
    requires forall e: Emit :: e.file == f && e.index < k && Emits(fs, e) ==> e in prior
    ensures var r := ExpandLines(fs, f, k, included);
            && BlackDone(fs, entry, r.included, grey, prior + r.out) && DependenciesFirst(fs, prior + r.out)
            && AllOut(fs, prior + r.out, f)
            && (forall m: nat, t :: IncludesAt(fs, f, m, t) ==> t in r.included)
    decreases Left(fs, included), 1 + |Stripped(fs, f)| - k
  {
    hide Reaches, Left, DependenciesFirst, AllOrderable, Orderable, IsPath, Stripped;
    if k == |Stripped(fs, f)| {
      assert prior + [] == prior;
    } else {
      var t := Target(Stripped(fs, f)[k]);
      if t.Some? {
        hide BlackDone;
        assert Edge(fs, f, t.value);
        forall g | g in grey
          ensures Reaches(fs, g, t.value)
        {
          ReachesOn(fs, g, f, t.value);
        }
        ReachesOn(fs, entry, f, t.value);
        var sub := ExpandFile(fs, t.value, included);
        if t.value in included {
          assert prior + [] == prior;
        } else {
          FileOrdered(fs, entry, t.value, included, grey, prior);
        }
        LeftShrinks(fs, included, sub.included);
        LinesOrdered(fs, entry, f, k + 1, sub.included, grey, prior + sub.out);
        var rest := ExpandLines(fs, f, k + 1, sub.included);
        assert prior + sub.out + rest.out == prior + (sub.out + rest.out);
      } else {
        EntryOrderable(fs, entry, f);
        LineInOrder(fs, entry, f, k, included, grey, prior);
        LinesOrdered(fs, entry, f, k + 1, included, grey, prior + [Emit(f, k)]);
        var rest := ExpandLines(fs, f, k + 1, included);
        assert prior + [Emit(f, k)] + rest.out == prior + ([Emit(f, k)] + rest.out);
      }
    }
  }

  lemma EntryOrderable(fs: Files, entry: Path, f: Path)
    requires AllOrderable(fs, entry) && Reaches(fs, entry, f)
    ensures Orderable(fs, f)
  {
  }

  /**
   Everything a header includes is fully copied before the lines that follow the include, exactly if no
   include that is followed by a copied line leads back to its own header.
   */
  lemma DependenciesFirstIff(fs: Files, entry: Path)
    requires Closed(fs) && entry in fs.contents && Separate(fs, entry)
    ensures DependenciesFirst(fs, ExpandFile(fs, entry, {}).out) <==> AllOrderable(fs, entry)
  {
    var out := ExpandFile(fs, entry, {}).out;
    if AllOrderable(fs, entry) {
      hide AllOrderable, Closed, Separate;
      ReachesSelf(fs, entry);
      FileOrdered(fs, entry, entry, {}, {}, []);
      assert [] + out == out;
    }
    if DependenciesFirst(fs, out) {
      PacksReachableOnce(fs, entry);
      forall h | Reaches(fs, entry, h)
        ensures Orderable(fs, h)
      {
        OrderShown(fs, entry, out, h);
      }
    }
  }

  lemma OrderShown(fs: Files, entry: Path, out: seq<Emit>, h: Path)
    requires DependenciesFirst(fs, out) && InOrder(out) && Reaches(fs, entry, h)
    requires forall e: Emit :: e in out <==> Reaches(fs, entry, e.file) && Emits(fs, e)
    ensures Orderable(fs, h)
  {
    hide Reaches, Emits, IncludesAt;
    forall m: nat, t, k: nat | m < k && IncludesAt(fs, h, m, t) && Emits(fs, Emit(h, k))
      ensures !Reaches(fs, t, h)
    {
      assert Emit(h, k) in out;
      var j :| 0 <= j < |out| && out[j] == Emit(h, k);
      assert AllBelowOut(fs, out[..j], t);
      assert Emit(h, k) !in out[..j];
      assert !AllOut(fs, out[..j], h);
    }
  }

  lemma AcyclicIsOrderable(fs: Files, entry: Path)
    requires Acyclic(fs)
    ensures AllOrderable(fs, entry)
  {
    hide Reaches, Emits, Stripped;
    forall h, m: nat, t, k: nat | m < k && IncludesAt(fs, h, m, t) && Emits(fs, Emit(h, k))
      ensures !Reaches(fs, t, h)
    {
      assert Edge(fs, h, t);
    }
  }

  /** On an acyclic include graph no line comes before what its header included above it. */
  lemma PacksDependenciesFirst(fs: Files, entry: Path)
    requires Closed(fs) && entry in fs.contents && Separate(fs, entry) && Acyclic(fs)
    ensures DependenciesFirst(fs, ExpandFile(fs, entry, {}).out)
  {
    AcyclicIsOrderable(fs, entry);
    DependenciesFirstIff(fs, entry);
  }

  // ----- the packer

  function LineText(fs: Files, e: Emit): string {
    if e.index < |Stripped(fs, e.file)| then Stripped(fs, e.file)[e.index].text else ""
  }

  function Texts(fs: Files, out: seq<Emit>): seq<string> {
    seq(|out|, i requires 0 <= i < |out| => LineText(fs, out[i]))
  }

  class SingleHeaderPacker {
    const fs: Files
    var included: set<Path>
    var headerLines: seq<string>
    var sourceFiles: seq<Path>

    constructor (fs: Files)
      ensures this.fs == fs && included == {} && headerLines == [] && sourceFiles == []
    {
      this.fs := fs;
      included, headerLines, sourceFiles := {}, [], [];
    }

    /** The packer's fields moved on by exactly one expansion. */
    twostate predicate Extended(r: Expansion)
      reads this
    {
      && included == r.included
      && headerLines == old(headerLines) + Texts(fs, r.out)
      && sourceFiles == old(sourceFiles) + r.sources
    }

    /** _expand_file */
    method Expand(f: Path)
      requires Closed(fs) && f in fs.contents
      modifies this
      ensures Extended(ExpandFile(fs, f, old(included)))
      decreases Left(fs, included)
    {
      hide Closed, Stripped, Left, Texts, ExpandLines;
      NothingAdded(headerLines, sourceFiles, fs, f);
      if f in included {
        return;
      }
      LeftShrinks(fs, included, included + {f});
      included := included + {f};
      var lines := Stripped(fs, f);
      ghost var all := ExpandLines(fs, f, 0, included);
      var k := 0;
      while k < |lines|
        invariant 0 <= k <= |lines|
        invariant old(included) + {f} <= included
        invariant var rest := ExpandLines(fs, f, k, included);
                  && all.included == rest.included
                  && headerLines + Texts(fs, rest.out) == old(headerLines) + Texts(fs, all.out)
                  && sourceFiles + rest.sources == old(sourceFiles) + all.sources
      {
        LeftShrinks(fs, old(included), included);
        LineStep(fs, f, k, included, headerLines, sourceFiles);
        var t := Target(lines[k]);
        if t.Some? {
          if t.value !in included {
            Expand(t.value);
          } else {
            NothingAdded(headerLines, sourceFiles, fs, f);
          }
        } else {
          headerLines := headerLines + [lines[k].text];
        }
        k := k + 1;
      }
      NothingAdded(headerLines, sourceFiles, fs, f);
      LinesEnd(fs, f, included);
      if f in fs.source && fs.source[f] !in included {
        included := included + {fs.source[f]};
        sourceFiles := sourceFiles + [fs.source[f]];
      }
    }

    /**
     Packing from an entry header: the copied lines of the expanded files once each. If headers include no
     sources of theirs, these are exactly the reachable files, and dependencies come first exactly if no
     include leads back.
     */
    method ProcessEntry(entry: Path)
      requires Closed(fs) && entry in fs.contents && included == {} && headerLines == [] && sourceFiles == []
      modifies this
      ensures exists out ::
        && headerLines == Texts(fs, out) && InOrder(out)
        && (forall e: Emit :: e in out <==> e.file in included && e.file !in sourceFiles && Emits(fs, e))
        && ((forall h :: h in fs.contents ==> (h in included && h !in sourceFiles <==> Reaches(fs, entry, h)))
            <==> (forall s :: s in sourceFiles ==> !Reaches(fs, entry, s)))
        && (Separate(fs, entry) ==>
              && (forall e: Emit :: e in out <==> Reaches(fs, entry, e.file) && Emits(fs, e))
              && (DependenciesFirst(fs, out) <==> AllOrderable(fs, entry)))
    {
      hide Reaches, Emits, Closed, DependenciesFirst, AllOrderable, Texts, InOrder, Separate, SourcesExact, ExpandFile, Edge;
      Expand(entry);
      ghost var r := ExpandFile(fs, entry, {});
      PacksOnce(fs, entry);
      PacksReachableIff(fs, entry);
      if Separate(fs, entry) {
        PacksReachableOnce(fs, entry);
        DependenciesFirstIff(fs, entry);
      }
      EmitsAreFiles(fs);
      ReachedExists(fs, entry);
      assert headerLines == Texts(fs, r.out) && sourceFiles == r.sources && included == r.included;
    }
  }

  lemma EmitsAreFiles(fs: Files)
    ensures forall e :: Emits(fs, e) ==> e.file in fs.contents
  {
  }

  lemma {:induction false} PathExists(fs: Files, f: Path, path: seq<Path>, g: Path)
    requires Closed(fs) && f in fs.contents && IsPath(fs, f, path, g)
    ensures g in fs.contents
    decreases path
  {
    if path != [] {
      PathExists(fs, path[0], path[1..], g);
    }
  }

  lemma ReachedExists(fs: Files, f: Path)
    requires Closed(fs) && f in fs.contents
    ensures forall g :: Reaches(fs, f, g) ==> g in fs.contents
  {
    forall g | Reaches(fs, f, g)
      ensures g in fs.contents
    {
      var path :| IsPath(fs, f, path, g);
      PathExists(fs, f, path, g);
    }
  }

  lemma NothingAdded(h: seq<string>, s: seq<Path>, fs: Files, f: Path)
    ensures h + Texts(fs, []) == h && s + [] == s
  {
  }

  lemma LinesEnd(fs: Files, f: Path, included: set<Path>)
    requires Closed(fs) && f in fs.contents
    ensures ExpandLines(fs, f, |Stripped(fs, f)|, included) == Expansion(included, [], [])
  {
  }

  /** What line k adds to the lines h and sources s, and what the lines after it add. */
  lemma LineStep(fs: Files, f: Path, k: nat, included: set<Path>, h: seq<string>, s: seq<Path>)
    requires Closed(fs) && f in fs.contents && k < |Stripped(fs, f)|
    ensures var line, r := Stripped(fs, f)[k], ExpandLines(fs, f, k, included);
            match Target(line)
            case Some(t) =>
              && t in fs.contents
              && var sub := ExpandFile(fs, t, included);
                 var rest := ExpandLines(fs, f, k + 1, sub.included);
                 && r.included == rest.included
                 && h + Texts(fs, r.out) == h + Texts(fs, sub.out) + Texts(fs, rest.out)
                 && s + r.sources == s + sub.sources + rest.sources
            case None =>
              var rest := ExpandLines(fs, f, k + 1, included);
              && r.included == rest.included
              && h + Texts(fs, r.out) == h + [line.text] + Texts(fs, rest.out)
              && s + r.sources == s + rest.sources
  {
    hide LineText, Stripped;
    match Target(Stripped(fs, f)[k])
    case Some(t) =>
      assert Edge(fs, f, t);
    case None =>
      LineTextIs(fs, f, k);
  }

  lemma LineTextIs(fs: Files, f: Path, k: nat)
    requires k < |Stripped(fs, f)|
    ensures LineText(fs, Emit(f, k)) == Stripped(fs, f)[k].text
  {
  }
}
