/** The route resolver `build_params` (index.js:207-262): a request path is
    walked one segment at a time through the resource directory. Literal
    entries win over dynamic ones (`_name`, `{name}`); a dynamic entry binds
    its name to the segment. The file system is an abstract tree: every
    directory has an ordered listing, and a path exists when its parent
    directory lists an entry of that name. */
module Routes {
  import opened Strings
  import opened Optional

  datatype EntryKind = File | Directory | OtherKind
  datatype Entry = Entry(name: string, kind: EntryKind)

  /** A location below the resource root, as a list of entry names. */
  type Path = seq<string>

  /** The listing `readdirSync` returns for each directory, in its order.
      A path without a listing is not a readable directory. */
  datatype Tree = Tree(dirs: map<Path, seq<Entry>>)

  /** Why a walk stops with an exception instead of a result. */
  datatype Failure =
    | NotADirectory(dir: Path)   // `readdirSync` on something that is not a directory
    | NoParamName(file: string)  // a `{x}.json` file: the extraction regex finds nothing

  /** `{success: true, path, params}`, `{success: false}`, or a thrown error. */
  datatype Outcome = Found(path: Path, params: map<string, string>) | NotFound | Failed(why: Failure)

  /** `fs.existsSync(path.join(dir, name))`. */
  predicate Exists(t: Tree, dir: Path, name: string) {
    dir in t.dirs && exists i | 0 <= i < |t.dirs[dir]| :: t.dirs[dir][i].name == name
  }

  // ---------------------------------------------------------------------------
  // Path segments (index.js:209)

  /** `.filter(seg => seg !== '')`. */
  function NonEmpty(pieces: seq<string>): (r: seq<string>)
    ensures forall i | 0 <= i < |r| :: r[i] != "" && r[i] in pieces
  {
    if |pieces| == 0 then []
    else if pieces[0] == "" then NonEmpty(pieces[1..])
    else [pieces[0]] + NonEmpty(pieces[1..])
  }

  lemma {:induction false} NonEmptyAppend(a: seq<string>, b: seq<string>)
    ensures NonEmpty(a + b) == NonEmpty(a) + NonEmpty(b)
  {
    if |a| > 0 {
      assert (a + b)[1..] == a[1..] + b;
      NonEmptyAppend(a[1..], b);
    } else {
      assert a + b == b;
    }
  }

  predicate IsSeparator(c: char) { c == '/' || c == '\\' }

  /** The non-empty pieces of the path once every `\` reads as `/`. */
  function Segments(url: string): (r: seq<string>)
    ensures forall i | 0 <= i < |r| :: r[i] != ""
    ensures forall i, k | 0 <= i < |r| && 0 <= k < |r[i]| :: !IsSeparator(r[i][k])
  {
    var pieces := Split(ReplaceAll(url, '\\', '/'), '/');
    var r := NonEmpty(pieces);
    assert forall i | 0 <= i < |pieces| :: '\\' !in pieces[i] by {
      forall i | 0 <= i < |pieces| ensures '\\' !in pieces[i] {
        SplitPiecesFrom(ReplaceAll(url, '\\', '/'), '/', '\\');
      }
    }
    r
  }

  /** Pieces of a split hold only characters of the split text. */
  lemma {:induction false} SplitPiecesFrom(s: string, sep: char, c: char)
    requires c !in s
    ensures forall i | 0 <= i < |Split(s, sep)| :: c !in Split(s, sep)[i]
  {
    if |s| > 0 {
      assert c !in s[1..];
      SplitPiecesFrom(s[1..], sep, c);
    }
  }

  /** A separator cuts the path into the segments of its two sides. */
  lemma SegmentsAround(a: string, c: char, b: string)
    requires IsSeparator(c)
    ensures Segments(a + [c] + b) == Segments(a) + Segments(b)
  {
    var ra, rb := ReplaceAll(a, '\\', '/'), ReplaceAll(b, '\\', '/');
    assert ReplaceAll(a + [c] + b, '\\', '/') == ra + ['/'] + rb;
    SplitAround(ra, rb, '/');
    NonEmptyAppend(Split(ra, '/'), Split(rb, '/'));
  }

  /** A path without separators is one segment, or none when empty. */
  lemma SegmentsWithoutSeparator(s: string)
    requires forall k | 0 <= k < |s| :: !IsSeparator(s[k])
    ensures Segments(s) == if s == "" then [] else [s]
  {
    assert ReplaceAll(s, '\\', '/') == s;
    assert '/' !in s;
    SplitFree(s, '/');
    assert NonEmpty([s]) == (if s == "" then [] else [s]) + NonEmpty([]);
  }

  /** A path has no segments exactly when it consists of separators only. */
  lemma {:induction false} NoSegments(url: string)
    ensures Segments(url) == [] <==> forall k | 0 <= k < |url| :: IsSeparator(url[k])
    decreases |url|
  {
    if |url| > 0 {
      NoSegments(url[1..]);
      if IsSeparator(url[0]) {
        LeadingSeparatorDropped(url);
      } else {
        LeadingSegmentKept(url);
      }
    }
  }

  /** A leading separator adds no segment. */
  lemma LeadingSeparatorDropped(url: string)
    requires |url| > 0 && IsSeparator(url[0])
    ensures Segments(url) == Segments(url[1..])
  {
    assert url == [] + [url[0]] + url[1..];
    SegmentsAround([], url[0], url[1..]);
    SegmentsWithoutSeparator([]);
  }

  /** A path that starts with another character has a first segment. */
  lemma LeadingSegmentKept(url: string)
    requires |url| > 0 && !IsSeparator(url[0])
    ensures Segments(url) != []
  {
    if i :| 0 <= i < |url| && IsSeparator(url[i]) {
      var j := FirstSeparator(url);
      assert url == url[..j] + [url[j]] + url[j + 1..];
      SegmentsAround(url[..j], url[j], url[j + 1..]);
      SegmentsWithoutSeparator(url[..j]);
    } else {
      SegmentsWithoutSeparator(url);
    }
  }

  function FirstSeparator(s: string): (j: nat)
    requires exists i :: 0 <= i < |s| && IsSeparator(s[i])
    ensures j < |s| && IsSeparator(s[j])
    ensures forall k | 0 <= k < j :: !IsSeparator(s[k])
  {
    if IsSeparator(s[0]) then 0 else 1 + FirstSeparator(s[1..])
  }

  // ---------------------------------------------------------------------------
  // Dynamic entry names (index.js:224, 230, 247, 254)

  /** `.` in a regular expression: any character but a line terminator. */
  predicate IsLineTerminator(c: char) {
    c == '\n' || c == '\r' || c == '\U{2028}' || c == '\U{2029}'
  }

  /** `(.+)`. */
  predicate AnyChars(s: string) {
    |s| >= 1 && forall k | 0 <= k < |s| :: !IsLineTerminator(s[k])
  }

  /** `/^_(.+)\.json$/`. */
  predicate UnderscoreFile(name: string) {
    |name| >= 6 && name[0] == '_' && name[|name| - 5..] == ".json" && AnyChars(name[1..|name| - 5])
  }

  /** `/^{(.+)}\.json$/`. */
  predicate BraceFile(name: string) {
    |name| >= 7 && name[0] == '{' && name[|name| - 6..] == "}.json" && AnyChars(name[1..|name| - 6])
  }

  /** `/^_(.+)$/`. */
  predicate UnderscoreDir(name: string) {
    |name| >= 1 && name[0] == '_' && AnyChars(name[1..])
  }

  /** `/^{(.+)}$/`. */
  predicate BraceDir(name: string) {
    |name| >= 2 && name[0] == '{' && name[|name| - 1] == '}' && AnyChars(name[1..|name| - 1])
  }

  /** The entries each `readdirSync(...).filter(...)` keeps. */
  predicate IsDynamic(e: Entry, final: bool) {
    if final then e.kind == File && (UnderscoreFile(e.name) || BraceFile(e.name))
    else e.kind == Directory && (UnderscoreDir(e.name) || BraceDir(e.name))
  }

  /** Position of the first kept entry, i.e. of `valid_files[0]` / `files[0]`. */
  function FirstDynamic(listing: seq<Entry>, final: bool): (r: Option<nat>)
    ensures r.Some? ==> r.value < |listing| && IsDynamic(listing[r.value], final)
    ensures r.Some? ==> forall j | 0 <= j < r.value :: !IsDynamic(listing[j], final)
    ensures r.None? ==> forall j | 0 <= j < |listing| :: !IsDynamic(listing[j], final)
  {
    if |listing| == 0 then None
    else if IsDynamic(listing[0], final) then Some(0)
    else match FirstDynamic(listing[1..], final)
      case None => None
      case Some(j) => Some(j + 1)
  }

  /** The parameter a dynamic directory binds: the text the capture group
      of `/^_(.+)$/` or else `/^{(.+)}$/` holds. */
  function DirParam(name: string): string
    requires UnderscoreDir(name) || BraceDir(name)
  {
    if UnderscoreDir(name) then name[1..] else name[1..|name| - 1]
  }

  /** The parameter a dynamic file binds. Only `_x.json` has one: the second
      regex tried at index.js:230 ends in `.json}` and never matches a name
      that ends in `}.json`. */
  function FileParam(name: string): Option<string> {
    if UnderscoreFile(name) then Some(name[1..|name| - 5]) else None
  }

  /** The parameter index.js:230 evidently means a dynamic file to bind: the
      capture group of `/^_(.+)\.json$/`, or else that of `/^{(.+)}\.json$/`,
      the pattern its own filter two lines earlier uses. */
  function FileParamIntended(name: string): Option<string> {
    if UnderscoreFile(name) then Some(name[1..|name| - 5])
    else if BraceFile(name) then Some(name[1..|name| - 6])
    else None
  }

  /** Corrected, every file the filter keeps binds a parameter, and each
      dynamic form gives back the name written between its delimiters. */
  lemma FileParamIntendedBinds(x: string)
    requires AnyChars(x)
    ensures FileParamIntended("_" + x + ".json") == Some(x)
    ensures FileParamIntended("{" + x + "}.json") == Some(x)
    ensures forall name :: IsDynamic(Entry(name, File), true) <==> FileParamIntended(name).Some?
  {
    var u, b := "_" + x + ".json", "{" + x + "}.json";
    assert u[1..|u| - 5] == x && u[|u| - 5..] == ".json";
    assert b[1..|b| - 6] == x && b[|b| - 6..] == "}.json";
  }

  /** As written, a `{x}.json` file passes the filter but binds nothing: the
      extraction pattern wants the name to end in `.json}`. */
  lemma BraceFileUnbound(x: string)
    requires AnyChars(x)
    ensures IsDynamic(Entry("{" + x + "}.json", File), true)
    ensures FileParam("{" + x + "}.json") == None
  {
    var b := "{" + x + "}.json";
    assert b[1..|b| - 6] == x && b[|b| - 6..] == "}.json";
  }

  /** Concretely: with only `{id}.json` in the root, `/42` throws instead of
      binding `id` to `42`. */
  lemma BraceFileFails(t: Tree, url: string)
    requires t == Tree(map[[] := [Entry("{id}.json", File)]])
    requires url == "/42"
    ensures Walk(t, [], Segments(url), map[]) == Failed(NoParamName("{id}.json"))
  {
    assert url == [] + "/" + "42";
    LeadingSeparator("42");
    SegmentsWithoutSeparator("42");
    assert Segments(url) == ["42"];
    BraceFileUnbound("id");
    var listing := t.dirs[[]];
    assert listing[0].name != "42.json";
    assert !Exists(t, [], "42" + ".json");
    assert IsDynamic(listing[0], true);
    assert FirstDynamic(listing, true) == Some(0);
    assert FinalStep(t, [], "42", map[]) == Failed(NoParamName("{id}.json"));
  }

  /** What a step binds when it takes an entry named `name`: nothing for a
      literal, the parameter for a dynamic entry. */
  function BindsAt(name: string, seg: string, final: bool): Option<string> {
    if final then (if name == seg + ".json" then None else FileParam(name))
    else if name == seg || !(UnderscoreDir(name) || BraceDir(name)) then None
    else Some(DirParam(name))
  }

  // ---------------------------------------------------------------------------
  // The walk as a specification

  /** One intermediate segment: descend, or stop with an outcome. */
  datatype Step = Descend(dir: Path, params: map<string, string>) | Stop(outcome: Outcome)

  function IntermediateStep(t: Tree, dir: Path, seg: string, params: map<string, string>): Step {
    if Exists(t, dir, seg) then Descend(dir + [seg], params)
    else if dir !in t.dirs then Stop(Failed(NotADirectory(dir)))
    else match FirstDynamic(t.dirs[dir], false)
      case None => Stop(NotFound)
      case Some(i) =>
        var name := t.dirs[dir][i].name;
        Descend(dir + [name], params[DirParam(name) := seg])
  }

  function FinalStep(t: Tree, dir: Path, seg: string, params: map<string, string>): Outcome {
    if Exists(t, dir, seg + ".json") then Found(dir + [seg + ".json"], params)
    else if dir !in t.dirs then Failed(NotADirectory(dir))
    else match FirstDynamic(t.dirs[dir], true)
      case None => NotFound
      case Some(i) =>
        var name := t.dirs[dir][i].name;
        match FileParam(name)
        case None => Failed(NoParamName(name))
        case Some(key) => Found(dir + [name], params[key := seg])
  }

  /** Resolving the remaining segments `segs` from directory `dir`. */
  ghost function Walk(t: Tree, dir: Path, segs: seq<string>, params: map<string, string>): Outcome
    decreases |segs|
  {
    if |segs| == 0 then NotFound
    else if |segs| == 1 then FinalStep(t, dir, segs[0], params)
    else match IntermediateStep(t, dir, segs[0], params)
      case Stop(o) => o
      case Descend(next, ps) => Walk(t, next, segs[1..], ps)
  }

  /** `build_params(url)`: the loop of index.js:211-260 over the path's
      segments, keeping the current directory and the bound parameters. */
  method BuildParams(t: Tree, root: Path, url: string) returns (r: Outcome)
    ensures r == Walk(t, root, Segments(url), map[])
  {
    var segs := Segments(url);
    var params: map<string, string> := map[];
    var current := root;
    var i := 0;
    while i < |segs|
      invariant 0 <= i <= |segs|
      invariant Walk(t, root, segs, map[]) == Walk(t, current, segs[i..], params)
    {
      var seg := segs[i];
      if i == |segs| - 1 {
        if Exists(t, current, seg + ".json") {
          return Found(current + [seg + ".json"], params);
        }
        if current !in t.dirs {
          return Failed(NotADirectory(current));
        }
        var listing := t.dirs[current];
        var first := FirstDynamic(listing, true);
        if first.None? {
          return NotFound;
        }
        var name := listing[first.value].name;
        var key := FileParam(name);
        if key.None? {
          return Failed(NoParamName(name));
        }
        params := params[key.value := seg];
        // the entry was just listed, so the existence test of index.js:233 holds
        return Found(current + [name], params);
      } else {
        if Exists(t, current, seg) {
          current := current + [seg];
        } else {
          if current !in t.dirs {
            return Failed(NotADirectory(current));
          }
          var listing := t.dirs[current];
          var first := FirstDynamic(listing, false);
          if first.None? {
            return NotFound;
          }
          var name := listing[first.value].name;
          params := params[DirParam(name) := seg];
          current := current + [name];
        }
      }
      assert segs[i..][1..] == segs[i + 1..];
      i := i + 1;
    }
    return NotFound;
  }

  // ---------------------------------------------------------------------------
  // Properties of the walk

  /** A path made of separators only reaches no template. */
  lemma NoSegmentsNotFound(t: Tree, root: Path, url: string)
    requires forall k | 0 <= k < |url| :: IsSeparator(url[k])
    ensures Walk(t, root, Segments(url), map[]) == NotFound
  {
    NoSegments(url);
  }

  /** One step of a successful walk: the entry `name` taken in directory
      `at` for segment `seg` exists; it is the literal entry, or the literal
      entry is missing and `name` is the first dynamic entry listed. */
  ghost predicate Matched(t: Tree, at: Path, seg: string, name: string, final: bool) {
    && Exists(t, at, name)
    && var literal := if final then seg + ".json" else seg;
       (name == literal
        || (&& !Exists(t, at, literal)
            && at in t.dirs
            && var first := FirstDynamic(t.dirs[at], final);
               first.Some? && t.dirs[at][first.value].name == name))
  }

  /** Soundness of a hit: the path extends the start directory by one entry
      per segment, and every entry was matched by the precedence rule. */
  lemma {:induction false} FoundIsMatched(t: Tree, dir: Path, segs: seq<string>, p: map<string, string>)
    requires Walk(t, dir, segs, p).Found?
    ensures var path := Walk(t, dir, segs, p).path;
      && |path| == |dir| + |segs|
      && path[..|dir|] == dir
      && forall i | 0 <= i < |segs| :: Matched(t, path[..|dir| + i], segs[i], path[|dir| + i], i == |segs| - 1)
    decreases |segs|
  {
    var path := Walk(t, dir, segs, p).path;
    if |segs| == 1 {
      FinalMatched(t, dir, segs[0], p);
      assert path[..|dir| + 0] == dir;
    } else {
      var step := IntermediateStep(t, dir, segs[0], p);
      IntermediateMatched(t, dir, segs[0], p);
      var next := step.dir;
      FoundIsMatched(t, next, segs[1..], step.params);
      assert path == Walk(t, next, segs[1..], step.params).path;
      MatchedChainCons(t, dir, next, path, segs);
    }
  }

  /** A first matched entry in front of a matched chain for the remaining
      segments is a matched chain for all of them. */
  lemma MatchedChainCons(t: Tree, dir: Path, next: Path, path: Path, segs: seq<string>)
    requires |segs| >= 2 && |next| == |dir| + 1 && next[..|dir|] == dir
    requires Matched(t, dir, segs[0], next[|dir|], false)
    requires |path| == |next| + |segs| - 1 && path[..|next|] == next
    requires forall i | 0 <= i < |segs[1..]| ::
      Matched(t, path[..|next| + i], segs[1..][i], path[|next| + i], i == |segs[1..]| - 1)
    ensures |path| == |dir| + |segs| && path[..|dir|] == dir
    ensures forall i | 0 <= i < |segs| :: Matched(t, path[..|dir| + i], segs[i], path[|dir| + i], i == |segs| - 1)
  {
    assert path[..|dir|] == next[..|dir|];
    forall i | 0 <= i < |segs|
      ensures Matched(t, path[..|dir| + i], segs[i], path[|dir| + i], i == |segs| - 1)
    {
      if i == 0 {
        assert path[..|dir| + 0] == dir && path[|dir|] == next[|dir|];
      } else {
        assert segs[1..][i - 1] == segs[i];
        assert |next| + (i - 1) == |dir| + i;
      }
    }
  }

  /** The last segment: a hit appends the entry it matched. */
  lemma FinalMatched(t: Tree, dir: Path, seg: string, p: map<string, string>)
    requires FinalStep(t, dir, seg, p).Found?
    ensures |FinalStep(t, dir, seg, p).path| == |dir| + 1
    ensures FinalStep(t, dir, seg, p).path[..|dir|] == dir
    ensures Matched(t, dir, seg, FinalStep(t, dir, seg, p).path[|dir|], true)
  {
    var path := FinalStep(t, dir, seg, p).path;
    assert path[..|dir|] == dir;
    if !Exists(t, dir, seg + ".json") {
      var i := FirstDynamic(t.dirs[dir], true).value;
      assert t.dirs[dir][i].name == path[|dir|];
    }
  }

  /** An intermediate segment: descending appends the entry it matched. */
  lemma IntermediateMatched(t: Tree, dir: Path, seg: string, p: map<string, string>)
    requires IntermediateStep(t, dir, seg, p).Descend?
    ensures |IntermediateStep(t, dir, seg, p).dir| == |dir| + 1
    ensures IntermediateStep(t, dir, seg, p).dir[..|dir|] == dir
    ensures Matched(t, dir, seg, IntermediateStep(t, dir, seg, p).dir[|dir|], false)
  {
    var next := IntermediateStep(t, dir, seg, p).dir;
    assert next[..|dir|] == dir;
    if !Exists(t, dir, seg) {
      var j := FirstDynamic(t.dirs[dir], false).value;
      assert Exists(t, dir, t.dirs[dir][j].name);
    }
  }

  /** The parameters a walk over the entries `names` binds on top of `p`:
      each dynamic entry, in path order, sets its name to its segment. */
  function Rebind(p: map<string, string>, names: seq<string>, segs: seq<string>): map<string, string>
    requires |names| == |segs|
    decreases |segs|
  {
    if |segs| == 0 then p
    else
      var q := match BindsAt(names[0], segs[0], |segs| == 1)
        case None => p
        case Some(k) => p[k := segs[0]];
      Rebind(q, names[1..], segs[1..])
  }

  /** Completeness: a chain of entries, each matched by the precedence rule
      in the directory the previous ones lead to, and ending in the literal
      file or a `_x.json` file, is the hit the walk returns, with the
      parameters those entries bind. */
  lemma {:induction false} MatchedChainFound(t: Tree, dir: Path, segs: seq<string>, names: seq<string>,
                                             p: map<string, string>)
    requires |segs| >= 1 && |names| == |segs|
    requires forall i | 0 <= i < |segs| :: Matched(t, dir + names[..i], segs[i], names[i], i == |segs| - 1)
    requires names[|segs| - 1] == segs[|segs| - 1] + ".json" || UnderscoreFile(names[|segs| - 1])
    ensures Walk(t, dir, segs, p) == Found(dir + names, Rebind(p, names, segs))
    decreases |segs|
  {
    assert dir + names[..0] == dir;
    if |segs| == 1 {
      FinalFound(t, dir, segs[0], names[0], p);
      assert names[1..] == [] && segs[1..] == [];
    } else {
      var q := DescendFound(t, dir, segs[0], names[0], p);
      MatchedChainTail(t, dir, segs, names);
      assert names[1..][|segs[1..]| - 1] == names[|segs| - 1];
      MatchedChainFound(t, dir + [names[0]], segs[1..], names[1..], q);
      WalkDescends(t, dir, segs, p, dir + [names[0]], q);
      RebindStep(p, names, segs);
      FoundAfterDescent(t, dir, segs, names, p, q);
    }
  }

  /** A hit from the directory an intermediate segment descends into is a
      hit from the directory before it, with the first entry's binding. */
  lemma FoundAfterDescent(t: Tree, dir: Path, segs: seq<string>, names: seq<string>,
                          p: map<string, string>, q: map<string, string>)
    requires |segs| >= 2 && |names| == |segs|
    requires Walk(t, dir, segs, p) == Walk(t, dir + [names[0]], segs[1..], q)
    requires Rebind(p, names, segs) == Rebind(q, names[1..], segs[1..])
    requires Walk(t, dir + [names[0]], segs[1..], q)
          == Found(dir + [names[0]] + names[1..], Rebind(q, names[1..], segs[1..]))
    ensures Walk(t, dir, segs, p) == Found(dir + names, Rebind(p, names, segs))
  {
    assert dir + [names[0]] + names[1..] == dir + names;
  }

  /** Past an intermediate segment, the walk goes on from where it descended. */
  lemma WalkDescends(t: Tree, dir: Path, segs: seq<string>, p: map<string, string>,
                     next: Path, q: map<string, string>)
    requires |segs| >= 2
    requires IntermediateStep(t, dir, segs[0], p) == Descend(next, q)
    ensures Walk(t, dir, segs, p) == Walk(t, next, segs[1..], q)
  {
  }

  /** `Rebind` over two or more entries: the first one's binding, then the
      rest. */
  lemma RebindStep(p: map<string, string>, names: seq<string>, segs: seq<string>)
    requires |segs| >= 2 && |names| == |segs|
    ensures Rebind(p, names, segs)
         == Rebind(match BindsAt(names[0], segs[0], false) case None => p case Some(k) => p[k := segs[0]],
                   names[1..], segs[1..])
  {
  }

  /** A matched last entry that is the literal file or a `_x.json` file is
      the hit, with what it binds. */
  lemma FinalFound(t: Tree, dir: Path, seg: string, name: string, p: map<string, string>)
    requires Matched(t, dir, seg, name, true)
    requires name == seg + ".json" || UnderscoreFile(name)
    ensures FinalStep(t, dir, seg, p) == Found(dir + [name], Rebind(p, [name], [seg]))
  {
    assert [name][1..] == [] && [seg][1..] == [];
  }

  /** A matched intermediate entry is the one the walk descends into, with
      what it binds. */
  lemma DescendFound(t: Tree, dir: Path, seg: string, name: string, p: map<string, string>)
      returns (q: map<string, string>)
    requires Matched(t, dir, seg, name, false)
    ensures q == match BindsAt(name, seg, false) case None => p case Some(k) => p[k := seg]
    ensures IntermediateStep(t, dir, seg, p) == Descend(dir + [name], q)
  {
    q := match BindsAt(name, seg, false) case None => p case Some(k) => p[k := seg];
  }

  /** The entries after the first of a matched chain form a matched chain
      from the directory the first one leads to. */
  lemma MatchedChainTail(t: Tree, dir: Path, segs: seq<string>, names: seq<string>)
    requires |segs| >= 2 && |names| == |segs|
    requires forall i | 0 <= i < |segs| :: Matched(t, dir + names[..i], segs[i], names[i], i == |segs| - 1)
    ensures forall i | 0 <= i < |segs| - 1 ::
      Matched(t, dir + [names[0]] + names[1..][..i], segs[1..][i], names[1..][i], i == |segs[1..]| - 1)
  {
    forall i | 0 <= i < |segs| - 1
      ensures Matched(t, dir + [names[0]] + names[1..][..i], segs[1..][i], names[1..][i], i == |segs[1..]| - 1)
    {
      assert dir + [names[0]] + names[1..][..i] == dir + names[..i + 1];
      assert Matched(t, dir + names[..i + 1], segs[i + 1], names[i + 1], i + 1 == |segs| - 1);
    }
  }

  /** The parameters of a hit are those its entries bind, in order. */
  lemma {:induction false} FoundBindings(t: Tree, dir: Path, segs: seq<string>, p: map<string, string>)
    requires Walk(t, dir, segs, p).Found?
    ensures var o := Walk(t, dir, segs, p);
      |o.path| == |dir| + |segs| && o.params == Rebind(p, o.path[|dir|..], segs)
    decreases |segs|
  {
    FoundIsMatched(t, dir, segs, p);
    var o := Walk(t, dir, segs, p);
    var names := o.path[|dir|..];
    if |segs| == 1 {
      assert names[1..] == [];
      if !Exists(t, dir, segs[0] + ".json") {
        var i := FirstDynamic(t.dirs[dir], true).value;
        assert names[0] == t.dirs[dir][i].name;
      }
    } else {
      var step := IntermediateStep(t, dir, segs[0], p);
      FoundBindings(t, step.dir, segs[1..], step.params);
      assert step.dir == dir + [names[0]];
      assert o.path[|step.dir|..] == names[1..];
      if !Exists(t, dir, segs[0]) {
        var i := FirstDynamic(t.dirs[dir], false).value;
        assert names[0] == t.dirs[dir][i].name;
      }
    }
  }

  /** What `Rebind` gives for one key: the segment of the last entry that
      binds it; the value of `p` when no entry binds it. */
  lemma {:induction false} RebindKey(p: map<string, string>, names: seq<string>, segs: seq<string>, k: string)
    requires |names| == |segs|
    ensures forall i | LastBinding(names, segs, k, i) ::
      k in Rebind(p, names, segs) && Rebind(p, names, segs)[k] == segs[i]
    ensures (forall i | 0 <= i < |segs| :: BindsAt(names[i], segs[i], i == |segs| - 1) != Some(k)) ==>
      (k in Rebind(p, names, segs) <==> k in p) && (k in p ==> Rebind(p, names, segs)[k] == p[k])
    ensures (exists i | 0 <= i < |segs| :: BindsAt(names[i], segs[i], i == |segs| - 1) == Some(k)) ==>
      exists i :: LastBinding(names, segs, k, i)
    decreases |segs|
  {
    if |segs| > 0 {
      var b := BindsAt(names[0], segs[0], |segs| == 1);
      var q := if b.Some? then p[b.value := segs[0]] else p;
      var ns, ss := names[1..], segs[1..];
      RebindKey(q, ns, ss, k);
      assert Rebind(p, names, segs) == Rebind(q, ns, ss);
      forall i | 1 <= i < |segs|
        ensures BindsAt(names[i], segs[i], i == |segs| - 1) == BindsAt(ns[i - 1], ss[i - 1], i - 1 == |ss| - 1)
      {
      }
      forall i | LastBinding(names, segs, k, i)
        ensures k in Rebind(p, names, segs) && Rebind(p, names, segs)[k] == segs[i]
      {
        if i > 0 {
          assert LastBinding(ns, ss, k, i - 1);
        } else {
          forall j | 0 <= j < |ss| ensures BindsAt(ns[j], ss[j], j == |ss| - 1) != Some(k) {
            assert BindsAt(names[j + 1], segs[j + 1], j + 1 == |segs| - 1) != Some(k);
          }
        }
      }
      if exists i | 0 <= i < |segs| :: BindsAt(names[i], segs[i], i == |segs| - 1) == Some(k) {
        if exists j | 0 <= j < |ss| :: BindsAt(ns[j], ss[j], j == |ss| - 1) == Some(k) {
          var j :| LastBinding(ns, ss, k, j);
          assert LastBinding(names, segs, k, j + 1);
        } else {
          assert LastBinding(names, segs, k, 0);
        }
      }
    }
  }

  /** Position `i` of the walked entries `names` binds `k`, and no later
      position binds it again. */
  ghost predicate LastBinding(names: seq<string>, segs: seq<string>, k: string, i: int) {
    && |names| == |segs|
    && 0 <= i < |segs|
    && BindsAt(names[i], segs[i], i == |segs| - 1) == Some(k)
    && forall j | i < j < |segs| :: BindsAt(names[j], segs[j], j == |segs| - 1) != Some(k)
  }

  /** Where every segment has a literal entry, the walk follows the literal
      names and binds nothing, whatever dynamic entries sit beside them. */
  ghost predicate LiteralChain(t: Tree, dir: Path, segs: seq<string>)
    requires |segs| >= 1
  {
    && (forall i | 0 <= i < |segs| - 1 :: Exists(t, dir + segs[..i], segs[i]))
    && Exists(t, dir + segs[..|segs| - 1], segs[|segs| - 1] + ".json")
  }

  lemma {:induction false} LiteralRouteWins(t: Tree, dir: Path, segs: seq<string>, p: map<string, string>)
    requires |segs| >= 1 && LiteralChain(t, dir, segs)
    ensures Walk(t, dir, segs, p) == Found(dir + segs[..|segs| - 1] + [segs[|segs| - 1] + ".json"], p)
    decreases |segs|
  {
    if |segs| == 1 {
      assert dir + segs[..0] == dir;
    } else {
      assert dir + segs[..0] == dir;
      var next := dir + [segs[0]];
      var rest := segs[1..];
      forall i | 0 <= i < |rest| - 1 ensures Exists(t, next + rest[..i], rest[i]) {
        assert next + rest[..i] == dir + segs[..i + 1];
      }
      assert next + rest[..|rest| - 1] == dir + segs[..|segs| - 1];
      LiteralRouteWins(t, next, rest, p);
      assert next + rest[..|rest| - 1] == dir + segs[..|segs| - 1];
    }
  }

  /** The walk only fails on a path that is not a directory, or on a final
      `{x}.json` file that was the first dynamic file listed. */
  lemma {:induction false} FailureCauses(t: Tree, dir: Path, segs: seq<string>, p: map<string, string>)
    requires Walk(t, dir, segs, p).Failed?
    ensures var why := Walk(t, dir, segs, p).why;
      (why.NotADirectory? && why.dir !in t.dirs) || (why.NoParamName? && BraceFile(why.file))
    decreases |segs|
  {
    if |segs| > 1 {
      var step := IntermediateStep(t, dir, segs[0], p);
      if step.Descend? { FailureCauses(t, step.dir, segs[1..], step.params); }
    }
  }

  /** `/a/b/c` has the segments `a`, `b` and `c`. */
  lemma ThreeSegments(a: string, b: string, c: string)
    requires a != "" && b != "" && c != ""
    requires forall k | 0 <= k < |a| :: !IsSeparator(a[k])
    requires forall k | 0 <= k < |b| :: !IsSeparator(b[k])
    requires forall k | 0 <= k < |c| :: !IsSeparator(c[k])
    ensures Segments("/" + a + "/" + b + "/" + c) == [a, b, c]
  {
    assert "/" + a + "/" + b + "/" + c == [] + "/" + (a + "/" + (b + "/" + c));
    LeadingSeparator(a + "/" + (b + "/" + c));
    LeadingSegment(a, b + "/" + c);
    LeadingSegment(b, c);
    SegmentsWithoutSeparator(c);
  }

  /** A separator at the front adds no segment. */
  lemma LeadingSeparator(b: string)
    ensures Segments([] + "/" + b) == Segments(b)
  {
    SegmentsAround([], '/', b);
    SegmentsWithoutSeparator([]);
  }

  /** A segment at the front, then a separator. */
  lemma LeadingSegment(a: string, b: string)
    requires a != ""
    requires forall k | 0 <= k < |a| :: !IsSeparator(a[k])
    ensures Segments(a + "/" + b) == [a] + Segments(b)
  {
    SegmentsAround(a, '/', b);
    SegmentsWithoutSeparator(a);
  }

  /** With `users/_id/profile.json` on disk, `/users/42/profile` selects
      that file and binds `id` to `42`. */
  lemma UsersExample(t: Tree, url: string)
    requires t == Tree(map[
              [] := [Entry("users", Directory)],
              ["users"] := [Entry("_id", Directory)],
              ["users", "_id"] := [Entry("profile.json", File)]])
    requires url == "/users/42/profile"
    ensures Walk(t, [], Segments(url), map[]) == Found(["users", "_id", "profile.json"], map["id" := "42"])
  {
    assert url == "/" + "users" + "/" + "42" + "/" + "profile";
    ThreeSegments("users", "42", "profile");
    var segs := ["users", "42", "profile"];
    assert !Exists(t, ["users"], "42");
    assert UnderscoreDir("_id") && DirParam("_id") == "id";
    assert IntermediateStep(t, [], "users", map[]) == Descend(["users"], map[]);
    assert IntermediateStep(t, ["users"], "42", map[]) == Descend(["users", "_id"], map["id" := "42"]);
    assert "profile" + ".json" == "profile.json";
    assert t.dirs[["users", "_id"]][0].name == "profile.json";
    assert FinalStep(t, ["users", "_id"], "profile", map["id" := "42"]) == Found(["users", "_id", "profile.json"], map["id" := "42"]);
    assert segs[1..] == ["42", "profile"] && segs[1..][1..] == ["profile"];
  }
}
