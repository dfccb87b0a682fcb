/**
  Configuration files: what merging of nested dictionaries gives (`deep_merge_dicts`) and the recursive loader
  (`load_from_files`), in which later files override earlier ones and a file overrides those it adds.
 */
module ConfigMerge {
  import opened Results

  /** Values other than dictionaries are never merged; lists of names are told apart for the loader. */
  datatype Json = Null | Value(v: int) | Names(names: seq<string>) | Obj(entries: map<string, Json>)

  const EMPTY := Obj(map[])

  function Child(j: Json, k: string): Option<Json> {
    if j.Obj? && k in j.entries then Some(j.entries[k]) else None
  }

  function ChildOrEmpty(j: Json, k: string): Json {
    if j.Obj? && k in j.entries then j.entries[k] else EMPTY
  }

  // ---------- Merging ----------

  /** Does merging `source` into `target` try to store something in a value that is not a dictionary? */
  predicate Raises(source: Json, target: Json, nulls: bool)
    requires source.Obj?
    decreases source
  {
    if target.Obj? then
      exists k :: k in source.entries && source.entries[k].Obj?
                  && Raises(source.entries[k], ChildOrEmpty(target, k), nulls)
    else
      exists k :: k in source.entries && Stores(source, k, nulls)
  }

  /** Is entry `k` of `source` one that is stored? */
  predicate Stores(source: Json, k: string, nulls: bool)
    requires source.Obj?
  {
    k in source.entries && (nulls || source.entries[k] != Null)
  }

  function Entry(source: Json, target: Json, k: string, nulls: bool): Json
    requires source.Obj? && k in source.entries
    decreases source, 0
  {
    if source.entries[k].Obj? then Merge(source.entries[k], ChildOrEmpty(target, k), nulls) else source.entries[k]
  }

  /** `target` after the entries of `source` with the keys `done` have been merged into it. */
  function MergeSome(source: Json, target: Json, done: set<string>, nulls: bool): map<string, Json>
    requires source.Obj? && target.Obj?
    decreases source, 1
  {
    map k | k in target.entries.Keys + (done * source.entries.Keys)
            && (k in target.entries || Stores(source, k, nulls)) ::
      if k in done && Stores(source, k, nulls) then Entry(source, target, k, nulls) else target.entries[k]
  }

  /** The result of merging `source` over `target`. */
  function Merge(source: Json, target: Json, nulls: bool): Json
    requires source.Obj?
    decreases source, 2
  {
    if target.Obj? then Obj(MergeSome(source, target, source.entries.Keys, nulls)) else target
  }

  lemma MergeOneMore(source: Json, target: Json, done: set<string>, k: string, nulls: bool)
    requires source.Obj? && target.Obj? && k in source.entries && k !in done
    ensures var before, after := MergeSome(source, target, done, nulls), MergeSome(source, target, done + {k}, nulls);
      && after == (if Stores(source, k, nulls) then before[k := Entry(source, target, k, nulls)] else before)
      && (if k in before then Some(before[k]) else None) == Child(target, k)
  {
  }

  // ---------- Laws of merging (null values override, as the loader merges) ----------

  function Over(source: Json, target: Json): Json
    requires source.Obj?
  {
    Merge(source, target, true)
  }

  lemma ChildOfMerge(source: Json, target: Json, k: string)
    requires source.Obj? && target.Obj?
    ensures Over(source, target).Obj?
    ensures Child(Over(source, target), k) ==
      if k in source.entries then Some(Entry(source, target, k, true)) else Child(target, k)
  {
    var m := MergeSome(source, target, source.entries.Keys, true);
    assert Over(source, target) == Obj(m);
    assert k in m <==> k in source.entries || k in target.entries;
    if k in source.entries {
      assert Stores(source, k, true);
      assert m[k] == Entry(source, target, k, true);
    }
  }

  lemma SameChildren(a: Json, b: Json)
    requires a.Obj? && b.Obj? && forall k :: Child(a, k) == Child(b, k)
    ensures a == b
  {
    forall k
      ensures k in a.entries <==> k in b.entries
      ensures k in a.entries ==> a.entries[k] == b.entries[k]
    {
      assert Child(a, k) == Child(b, k);
    }
    assert a.entries == b.entries;
  }

  lemma EmptyIsNeutral(j: Json)
    ensures Over(EMPTY, j) == j
    ensures j.Obj? ==> Over(j, EMPTY) == j
    decreases j
  {
    if j.Obj? {
      forall k
        ensures Child(Over(EMPTY, j), k) == Child(j, k) == Child(Over(j, EMPTY), k)
      {
        ChildOfMerge(EMPTY, j, k);
        ChildOfMerge(j, EMPTY, k);
        if k in j.entries {
          EmptyIsNeutral(j.entries[k]);
        }
      }
      SameChildren(Over(EMPTY, j), j);
      SameChildren(Over(j, EMPTY), j);
    }
  }

  /** How a merge is nested does not matter. */
  lemma {:induction false} MergeIsAssociative(a: Json, b: Json, c: Json)
    requires a.Obj? && b.Obj?
    ensures Over(a, b).Obj?
    ensures Over(a, Over(b, c)) == Over(Over(a, b), c)
    decreases a
  {
    ChildOfMerge(a, b, "");
    if c.Obj? {
      ChildOfMerge(b, c, "");
      ChildOfMerge(a, Over(b, c), "");
      ChildOfMerge(Over(a, b), c, "");
      forall k
        ensures Child(Over(a, Over(b, c)), k) == Child(Over(Over(a, b), c), k)
      {
        ChildOfMerge(b, c, k);
        ChildOfMerge(a, b, k);
        ChildOfMerge(a, Over(b, c), k);
        ChildOfMerge(Over(a, b), c, k);
        if k in a.entries && a.entries[k].Obj? {
          if k !in b.entries {
            MergeIsAssociative(a.entries[k], EMPTY, ChildOrEmpty(c, k));
            EmptyIsNeutral(ChildOrEmpty(c, k));
          } else if b.entries[k].Obj? {
            MergeIsAssociative(a.entries[k], b.entries[k], ChildOrEmpty(c, k));
          }
        }
      }
      SameChildren(Over(a, Over(b, c)), Over(Over(a, b), c));
    }
  }

  /** Does merging fail on a clash of shapes at key `k`? */
  predicate ClashesAt(source: Json, target: Json, k: string) {
    && source.Obj? && k in source.entries && source.entries[k].Obj?
    && Raises(source.entries[k], ChildOrEmpty(target, k), true)
  }

  lemma RaisesSomewhere(source: Json, target: Json)
    requires source.Obj? && target.Obj?
    ensures Raises(source, target, true) <==> exists k :: ClashesAt(source, target, k)
  {
    if k :| ClashesAt(source, target, k) {
      assert k in source.entries;
    }
    if Raises(source, target, true) {
      var k :| k in source.entries && source.entries[k].Obj?
               && Raises(source.entries[k], ChildOrEmpty(target, k), true);
      assert ClashesAt(source, target, k);
    }
  }

  lemma {:induction false} NothingClashesWithEmpty(j: Json)
    requires j.Obj?
    ensures !Raises(j, EMPTY, true)
    decreases j
  {
    RaisesSomewhere(j, EMPTY);
    forall k | k in j.entries && j.entries[k].Obj?
      ensures !ClashesAt(j, EMPTY, k)
    {
      NothingClashesWithEmpty(j.entries[k]);
    }
  }

  /**
    Failures are associative but for one case: merging into `c` first fails exactly when merging into
    `b` first does, or `b` itself clashes with `c`, even in a part that `a` overrides.
   */
  lemma {:induction false} FailuresAreAssociative(a: Json, b: Json, c: Json)
    requires a.Obj? && b.Obj?
    ensures Over(a, b).Obj?
    ensures Raises(b, c, true) || Raises(a, Over(b, c), true)
      <==> Raises(b, c, true) || Raises(a, b, true) || Raises(Over(a, b), c, true)
    decreases a
  {
    ChildOfMerge(a, b, "");
    if !Raises(b, c, true) {
      if c.Obj? {
        ChildOfMerge(b, c, "");
        RaisesSomewhere(a, b);
        RaisesSomewhere(b, c);
        RaisesSomewhere(a, Over(b, c));
        RaisesSomewhere(Over(a, b), c);
        forall k
          ensures ClashesAt(a, Over(b, c), k) <==> ClashesAt(a, b, k) || ClashesAt(Over(a, b), c, k)
        {
          assert !ClashesAt(b, c, k);
          ChildOfMerge(b, c, k);
          ChildOfMerge(a, b, k);
          if k in a.entries && a.entries[k].Obj? {
            if k !in b.entries {
              NothingClashesWithEmpty(a.entries[k]);
              EmptyIsNeutral(a.entries[k]);
            } else if b.entries[k].Obj? {
              FailuresAreAssociative(a.entries[k], b.entries[k], ChildOrEmpty(c, k));
            }
          }
        }
      } else {
        assert b == EMPTY;
        NothingClashesWithEmpty(a);
        EmptyIsNeutral(a);
      }
    }
  }

  /** Merging the same source twice is merging it once. */
  lemma {:induction false} MergeIsIdempotent(a: Json, b: Json)
    requires a.Obj?
    ensures Over(a, a) == a
    ensures Over(a, Over(a, b)) == Over(a, b)
    decreases a
  {
    forall k
      ensures Child(Over(a, a), k) == Child(a, k)
    {
      ChildOfMerge(a, a, k);
      if k in a.entries && a.entries[k].Obj? {
        MergeIsIdempotent(a.entries[k], EMPTY);
      }
    }
    ChildOfMerge(a, a, "");
    SameChildren(Over(a, a), a);
    MergeIsAssociative(a, a, b);
  }

  function At(j: Json, path: seq<string>): Option<Json> {
    if path == [] then Some(j)
    else match Child(j, path[0]) case None => None case Some(c) => At(c, path[1..])
  }

  /** `j` has a value that is not a dictionary at `path`. */
  predicate Defines(j: Json, path: seq<string>) {
    At(j, path).Some? && !At(j, path).value.Obj?
  }

  /** `j` has dictionaries along `path` as far as it goes, and then nothing. */
  predicate Silent(j: Json, path: seq<string>) {
    j.Obj? && path != [] && (path[0] in j.entries ==> Silent(j.entries[path[0]], path[1..]))
  }

  predicate Shaped(j: Json, path: seq<string>) {
    Silent(j, path) || Defines(j, path)
  }

  lemma AtBelow(j: Json, path: seq<string>)
    requires path != [] && j.Obj?
    ensures At(j, path) == if path[0] in j.entries then At(j.entries[path[0]], path[1..]) else None
    ensures path[0] in j.entries ==> (Shaped(j, path) <==> Shaped(j.entries[path[0]], path[1..]))
    ensures path[0] !in j.entries ==> Silent(j, path)
  {
  }

  lemma SilentHasNothing(j: Json, path: seq<string>)
    ensures Silent(j, path) ==> At(j, path) == None
    decreases path
  {
    if Silent(j, path) && path[0] in j.entries {
      SilentHasNothing(j.entries[path[0]], path[1..]);
    }
  }

  lemma ShapedBelow(j: Json, path: seq<string>)
    requires Shaped(j, path)
    ensures j.Obj? <==> path != []
  {
  }

  /** A leaf comes from the source if the source defines it, and from the target otherwise. */
  lemma {:induction false} MergeAt(source: Json, target: Json, path: seq<string>)
    requires source.Obj? && target.Obj? && Shaped(source, path) && Shaped(target, path)
    ensures Shaped(Over(source, target), path)
    ensures At(Over(source, target), path) == if Defines(source, path) then At(source, path) else At(target, path)
    decreases path
  {
    var k, rest := path[0], path[1..];
    ChildOfMerge(source, target, k);
    AtBelow(source, path);
    AtBelow(target, path);
    AtBelow(Over(source, target), path);
    if k in target.entries {
      ShapedBelow(target.entries[k], rest);
    }
    if k in source.entries && source.entries[k].Obj? {
      ShapedBelow(source.entries[k], rest);
      if k in target.entries {
        if target.entries[k].Obj? {
          MergeAt(source.entries[k], target.entries[k], rest);
        }
      } else {
        EmptyIsNeutral(source.entries[k]);
        SilentHasNothing(source, path);
      }
    }
  }

  // ---------- Failures and null values ----------

  /** The source has something to store where the target has a value that is not a dictionary. */
  predicate IsClash(source: Json, target: Json, path: seq<string>) {
    && At(source, path).Some? && At(source, path).value.Obj? && At(source, path).value.entries.Keys != {}
    && Defines(target, path)
  }

  /** A merge fails exactly if there is such a clash, at whatever depth. */
  lemma {:induction false} RaisesExactly(source: Json, target: Json)
    requires source.Obj?
    ensures Raises(source, target, true) <==> exists path :: IsClash(source, target, path)
    decreases source
  {
    assert At(source, []) == Some(source) && At(target, []) == Some(target);
    if !target.Obj? {
      if k :| k in source.entries {
        assert Stores(source, k, true);
        assert IsClash(source, target, []);
      }
      forall path | IsClash(source, target, path)
        ensures path == []
      {
        LeafHasNothing(target, path);
      }
    } else {
      RaisesSomewhere(source, target);
      if k :| ClashesAt(source, target, k) {
        RaisesExactly(source.entries[k], ChildOrEmpty(target, k));
        var path :| IsClash(source.entries[k], ChildOrEmpty(target, k), path);
        ClashBelow(source, target, k, path);
        assert IsClash(source, target, [k] + path);
      }
      if path :| IsClash(source, target, path) {
        var k, rest := path[0], path[1..];
        assert path == [k] + rest;
        ClashBelow(source, target, k, rest);
        RaisesExactly(source.entries[k], ChildOrEmpty(target, k));
        assert ClashesAt(source, target, k);
      }
    }
  }

  lemma ClashBelow(source: Json, target: Json, k: string, path: seq<string>)
    requires source.Obj? && target.Obj?
    ensures IsClash(source, target, [k] + path) <==>
      k in source.entries && source.entries[k].Obj? && IsClash(source.entries[k], ChildOrEmpty(target, k), path)
  {
    assert ([k] + path)[1..] == path;
    AtBelow(source, [k] + path);
    AtBelow(target, [k] + path);
    if k in source.entries {
      LeafHasNothing(source.entries[k], path);
    }
    if k !in target.entries && path != [] {
      AtBelow(EMPTY, path);
    }
  }

  lemma LeafHasNothing(j: Json, path: seq<string>)
    ensures !j.Obj? && path != [] ==> At(j, path) == None
  {
  }

  /** A configuration with all its null values left out. */
  function WithoutNulls(j: Json): Json {
    if j.Obj? then Obj(map k | k in j.entries && j.entries[k] != Null :: WithoutNulls(j.entries[k])) else j
  }

  /** Without null overrides a merge is the merge of the source without its null values, in failing too. */
  lemma {:induction false} NullsAreLeftOut(source: Json, target: Json)
    requires source.Obj?
    ensures Merge(source, target, false) == Merge(WithoutNulls(source), target, true)
    ensures Raises(source, target, false) <==> Raises(WithoutNulls(source), target, true)
    decreases source
  {
    var fewer := WithoutNulls(source);
    forall k | k in source.entries && source.entries[k].Obj?
      ensures k in fewer.entries && fewer.entries[k] == WithoutNulls(source.entries[k])
      ensures Merge(source.entries[k], ChildOrEmpty(target, k), false)
        == Merge(fewer.entries[k], ChildOrEmpty(target, k), true)
      ensures Raises(source.entries[k], ChildOrEmpty(target, k), false)
        <==> Raises(fewer.entries[k], ChildOrEmpty(target, k), true)
    {
      NullsAreLeftOut(source.entries[k], ChildOrEmpty(target, k));
    }
    assert forall k :: Stores(source, k, false) <==> Stores(fewer, k, true);
    if target.Obj? {
      SameWithoutNulls(source, fewer, target);
    }
  }

  lemma SameWithoutNulls(source: Json, fewer: Json, target: Json)
    requires source.Obj? && target.Obj? && fewer == WithoutNulls(source)
    requires forall k :: k in source.entries && source.entries[k].Obj? ==>
      && k in fewer.entries
      && Entry(source, target, k, false) == Entry(fewer, target, k, true)
    ensures Merge(source, target, false) == Merge(fewer, target, true)
  {
    var a := MergeSome(source, target, source.entries.Keys, false);
    var b := MergeSome(fewer, target, fewer.entries.Keys, true);
    forall k | k in a || k in b
      ensures k in a && k in b && a[k] == b[k]
    {
      if k in source.entries && source.entries[k] != Null {
        assert fewer.entries[k] == WithoutNulls(source.entries[k]);
        assert Entry(source, target, k, false) == Entry(fewer, target, k, true);
      }
    }
    assert a.Keys == b.Keys;
    assert a == b;
  }

  // ---------- The loader ----------

  /** The file system: contents by path, standard input, and how paths are put together. */
  datatype Env = Env(files: map<string, Json>, stdin: Json, minimal: Json,
                     join: (string, string) -> string, parent: string -> string)
  datatype ConfigError = ConfigLoop | FileNotFound(path: string) | ShapeClash

  const MAX_LEVEL := 5
  const ADD := "add_config_files"
  const LOADED := "config_files"

  predicate ValidFile(j: Json) {
    && j.Obj?
    && (Child(j, ADD).Some? ==> Child(j, ADD).value.Names?)
    && (Child(j, LOADED).Some? ==> Child(j, LOADED).value.Names?)
  }

  predicate ValidEnv(env: Env) {
    ValidFile(env.stdin) && ValidFile(env.minimal) && forall p :: p in env.files ==> ValidFile(env.files[p])
  }

  function FilesOf(j: Json): seq<string> {
    match Child(j, LOADED) case Some(Names(names)) => names case _ => []
  }

  function PathOf(env: Env, base: Option<string>, name: string): string {
    if base.Some? then env.join(base.value, name) else name
  }

  function Load(env: Env, names: seq<string>, base: Option<string>, level: nat): (r: Result<Json, ConfigError>)
    requires ValidEnv(env)
    ensures r.Ok? ==> r.value.Obj?
    decreases MAX_LEVEL + 1 - level, |names| + 1
  {
    if level > MAX_LEVEL then Err(ConfigLoop)
    else if names == [] then Ok(env.minimal)
    else LoadEach(env, names, base, level, EMPTY, [])
  }

  function LoadEach(env: Env, names: seq<string>, base: Option<string>, level: nat, config: Json, loaded: seq<string>):
    (r: Result<Json, ConfigError>)
    requires ValidEnv(env) && level <= MAX_LEVEL && config.Obj?
    ensures r.Ok? ==> r.value.Obj?
    decreases MAX_LEVEL + 1 - level, |names|, 1
  {
    if names == [] then Ok(Obj(config.entries[LOADED := Names(loaded)]))
    else if names[0] == "-" then Ok(env.stdin)
    else
      var path := PathOf(env, base, names[0]);
      match LoadFile(env, path, level, |names|)
      case Err(e) => Err(e)
      case Ok((file, added)) =>
        if Raises(file, config, true) then Err(ShapeClash)
        else LoadEach(env, names[1..], base, level, Over(file, config), [path] + loaded + added)
  }

  /** One file over the files it adds, and the names of the latter. */
  function LoadFile(env: Env, path: string, level: nat, ghost rank: nat): (r: Result<(Json, seq<string>), ConfigError>)
    requires ValidEnv(env) && level <= MAX_LEVEL
    ensures r.Ok? ==> r.value.0.Obj?
    decreases MAX_LEVEL + 1 - level, rank, 0
  {
    if path !in env.files then Err(FileNotFound(path))
    else
      var file := env.files[path];
      match Child(file, ADD)
      case Some(Names(more)) =>
        (match Load(env, more, Some(env.parent(path)), level + 1)
         case Err(e) => Err(e)
         case Ok(sub) =>
           if Raises(file, sub, true) then Err(ShapeClash)
           else Ok((Over(file, sub), FilesOf(sub))))
      case _ => Ok((file, []))
  }

  method LoadFromFiles(env: Env, names: seq<string>, base: Option<string>, level: nat)
    returns (r: Result<Json, ConfigError>)
    requires ValidEnv(env)
    ensures r == Load(env, names, base, level)
    decreases MAX_LEVEL + 1 - level, 1
  {
    if level > MAX_LEVEL {
      return Err(ConfigLoop);
    }
    if names == [] {
      return Ok(env.minimal);
    }
    var config, loaded: seq<string> := EMPTY, [];
    var i := 0;
    while i < |names|
      invariant 0 <= i <= |names| && config.Obj?
      invariant LoadEach(env, names[i..], base, level, config, loaded) == Load(env, names, base, level)
    {
      assert names[i..][0] == names[i] && names[i..][1..] == names[i + 1..];
      if names[i] == "-" {
        return Ok(env.stdin);
      }
      var path := PathOf(env, base, names[i]);
      var read := ReadFile(env, path, level, |names[i..]|);
      if read.Err? {
        return Err(read.error);
      }
      var (file, added) := read.value;
      if Raises(file, config, true) {
        return Err(ShapeClash);
      }
      config, loaded := Over(file, config), [path] + loaded + added;
      i := i + 1;
    }
    r := Ok(Obj(config.entries[LOADED := Names(loaded)]));
  }

  /** The part of the loop's body that reads one file and loads those it adds. */
  method ReadFile(env: Env, path: string, level: nat, ghost rank: nat)
    returns (r: Result<(Json, seq<string>), ConfigError>)
    requires ValidEnv(env) && level <= MAX_LEVEL
    ensures r == LoadFile(env, path, level, rank)
    decreases MAX_LEVEL + 1 - level, 0
  {
    if path !in env.files {
      return Err(FileNotFound(path));
    }
    var file := env.files[path];
    if ADD in file.entries && file.entries[ADD].Names? {
      var sub := LoadFromFiles(env, file.entries[ADD].names, Some(env.parent(path)), level + 1);
      if sub.Err? {
        return Err(sub.error);
      }
      if Raises(file, sub.value, true) {
        return Err(ShapeClash);
      }
      return Ok((Over(file, sub.value), FilesOf(sub.value)));
    }
    r := Ok((file, []));
  }

  /**
    A file that adds others: it fails if loading those fails, or if it clashes with what they give; else
    it overrides that, and takes over the names recorded there.
   */
  lemma AddingFileExactly(env: Env, path: string, level: nat, rank: nat, more: seq<string>)
    requires ValidEnv(env) && level <= MAX_LEVEL
    requires path in env.files && Child(env.files[path], ADD) == Some(Names(more))
    ensures var sub, r := Load(env, more, Some(env.parent(path)), level + 1), LoadFile(env, path, level, rank);
      && (sub.Err? ==> r == Err(sub.error))
      && (sub.Ok? && (exists p :: IsClash(env.files[path], sub.value, p)) ==> r == Err(ShapeClash))
      && (sub.Ok? && (forall p :: !IsClash(env.files[path], sub.value, p)) ==>
            r == Ok((Over(env.files[path], sub.value), FilesOf(sub.value))))
  {
    var sub := Load(env, more, Some(env.parent(path)), level + 1);
    if sub.Ok? {
      RaisesExactly(env.files[path], sub.value);
    }
  }

  function Reversed(names: seq<string>): seq<string> {
    if names == [] then [] else Reversed(names[1..]) + [names[0]]
  }

  function Paths(env: Env, names: seq<string>, base: Option<string>): seq<string> {
    if names == [] then [] else [PathOf(env, base, names[0])] + Paths(env, names[1..], base)
  }

  /** The names that the listed files take over from those they add, in order. */
  function TakenOver(env: Env, names: seq<string>, base: Option<string>, level: nat): seq<string>
    requires ValidEnv(env) && level <= MAX_LEVEL
  {
    if names == [] then []
    else
      var file := LoadFile(env, PathOf(env, base, names[0]), level, |names|);
      (if file.Ok? then file.value.1 else []) + TakenOver(env, names[1..], base, level)
  }

  /** The names recorded for a list of files: these, the last one first, and then what they take over. */
  lemma {:induction false} RecordedNames(env: Env, names: seq<string>, base: Option<string>, level: nat)
    requires ValidEnv(env) && level <= MAX_LEVEL && names != [] && "-" !in names
    requires Load(env, names, base, level).Ok?
    ensures FilesOf(Load(env, names, base, level).value)
      == Reversed(Paths(env, names, base)) + TakenOver(env, names, base, level)
  {
    RecordedEach(env, names, base, level, EMPTY, []);
    assert Reversed(Paths(env, names, base)) + [] == Reversed(Paths(env, names, base));
  }

  lemma {:induction false} RecordedEach(
      env: Env, names: seq<string>, base: Option<string>, level: nat, config: Json, loaded: seq<string>)
    requires ValidEnv(env) && level <= MAX_LEVEL && config.Obj? && "-" !in names
    requires LoadEach(env, names, base, level, config, loaded).Ok?
    ensures FilesOf(LoadEach(env, names, base, level, config, loaded).value)
      == Reversed(Paths(env, names, base)) + loaded + TakenOver(env, names, base, level)
    decreases names
  {
    if names != [] {
      var path := PathOf(env, base, names[0]);
      var (file, added) := LoadFile(env, path, level, |names|).value;
      RecordedEach(env, names[1..], base, level, Over(file, config), [path] + loaded + added);
      var rest, over := Reversed(Paths(env, names[1..], base)), TakenOver(env, names[1..], base, level);
      assert Paths(env, names, base)[1..] == Paths(env, names[1..], base);
      Regroup(rest, [path], loaded, added, over);
    } else {
      assert Reversed([]) + loaded + [] == loaded;
    }
  }

  lemma Regroup(a: seq<string>, b: seq<string>, c: seq<string>, d: seq<string>, e: seq<string>)
    ensures a + (b + c + d) + e == (a + b) + c + (d + e)
  {
  }

  // ---------- The last definition wins ----------

  /** Layers of configuration, the strongest last. */
  function Fold(layers: seq<Json>): (j: Json)
    requires forall l :: l in layers ==> l.Obj?
    ensures j.Obj?
  {
    if layers == [] then EMPTY
    else
      ChildOfMerge(layers[|layers| - 1], Fold(layers[..|layers| - 1]), "");
      Over(layers[|layers| - 1], Fold(layers[..|layers| - 1]))
  }

  predicate AllObjects(layers: seq<Json>) {
    forall l :: l in layers ==> l.Obj?
  }

  /** Two stacks of layers can be merged separately first. */
  lemma {:induction false} FoldOfTwo(low: seq<Json>, high: seq<Json>)
    requires AllObjects(low) && AllObjects(high)
    ensures AllObjects(low + high) && Fold(low + high) == Over(Fold(high), Fold(low))
    decreases high
  {
    if high == [] {
      assert low + high == low;
      EmptyIsNeutral(Fold(low));
    } else {
      var init, top := high[..|high| - 1], high[|high| - 1];
      assert (low + high)[..|low + high| - 1] == low + init;
      FoldOfTwo(low, init);
      MergeIsAssociative(top, Fold(init), Fold(low));
    }
  }

  /** The bookkeeping of loaded files left out. */
  function Strip(j: Json): Json
    requires j.Obj?
  {
    Obj(j.entries - {LOADED})
  }

  lemma StripOfMerge(source: Json, target: Json)
    requires source.Obj? && target.Obj?
    ensures Over(source, target).Obj?
    ensures Strip(Over(source, target)) == Over(Strip(source), Strip(target))
  {
    ChildOfMerge(source, target, "");
    ChildOfMerge(Strip(source), Strip(target), "");
    forall k
      ensures Child(Strip(Over(source, target)), k) == Child(Over(Strip(source), Strip(target)), k)
    {
      ChildOfMerge(source, target, k);
      ChildOfMerge(Strip(source), Strip(target), k);
    }
    SameChildren(Strip(Over(source, target)), Over(Strip(source), Strip(target)));
  }

  /**
    The contents that reach a configuration, in the order in which they override each other: the
    files a file adds come right before it. Standard input replaces everything listed before it.
   */
  function Layers(env: Env, names: seq<string>, base: Option<string>, level: nat): (r: seq<Json>)
    requires ValidEnv(env)
    ensures AllObjects(r)
    decreases MAX_LEVEL + 1 - level, |names| + 1
  {
    if level > MAX_LEVEL then []
    else if names == [] then [env.minimal]
    else LayersEach(env, names, base, level, [])
  }

  function LayersEach(env: Env, names: seq<string>, base: Option<string>, level: nat, below: seq<Json>): (r: seq<Json>)
    requires ValidEnv(env) && level <= MAX_LEVEL && AllObjects(below)
    ensures AllObjects(r)
    decreases MAX_LEVEL + 1 - level, |names|, 1
  {
    if names == [] then below
    else if names[0] == "-" then [env.stdin]
    else LayersEach(env, names[1..], base, level, below + FileLayers(env, PathOf(env, base, names[0]), level, |names|))
  }

  function FileLayers(env: Env, path: string, level: nat, ghost rank: nat): (r: seq<Json>)
    requires ValidEnv(env) && level <= MAX_LEVEL
    ensures AllObjects(r)
    decreases MAX_LEVEL + 1 - level, rank, 0
  {
    if path !in env.files then []
    else
      match Child(env.files[path], ADD)
      case Some(Names(more)) => Layers(env, more, Some(env.parent(path)), level + 1) + [env.files[path]]
      case _ => [env.files[path]]
  }

  /** What is loaded is the fold of the layers. */
  lemma {:induction false} LoadIsFold(env: Env, names: seq<string>, base: Option<string>, level: nat)
    requires ValidEnv(env) && Load(env, names, base, level).Ok?
    ensures Strip(Load(env, names, base, level).value) == Strip(Fold(Layers(env, names, base, level)))
    decreases MAX_LEVEL + 1 - level, |names| + 1
  {
    if names == [] {
      FoldOfOne(env.minimal);
    } else {
      LoadEachIsFold(env, names, base, level, EMPTY, [], []);
    }
  }

  lemma FoldOfOne(j: Json)
    requires j.Obj?
    ensures Fold([j]) == j
  {
    EmptyIsNeutral(j);
    assert [j][..0] == [];
  }

  lemma {:induction false} LoadEachIsFold(env: Env, names: seq<string>, base: Option<string>, level: nat, config: Json,
                                          loaded: seq<string>, below: seq<Json>)
    requires ValidEnv(env) && level <= MAX_LEVEL && config.Obj? && AllObjects(below)
    requires Strip(config) == Strip(Fold(below))
    requires LoadEach(env, names, base, level, config, loaded).Ok?
    ensures Strip(LoadEach(env, names, base, level, config, loaded).value)
      == Strip(Fold(LayersEach(env, names, base, level, below)))
    decreases MAX_LEVEL + 1 - level, |names|, 1
  {
    if names == [] {
      assert config.entries[LOADED := Names(loaded)] - {LOADED} == config.entries - {LOADED};
    } else if names[0] == "-" {
      FoldOfOne(env.stdin);
    } else {
      var path := PathOf(env, base, names[0]);
      var (file, added) := LoadFile(env, path, level, |names|).value;
      var layers := FileLayers(env, path, level, |names|);
      LoadFileIsFold(env, path, level, |names|);
      StripOfMerge(file, config);
      StripOfMerge(Fold(layers), Fold(below));
      FoldOfTwo(below, layers);
      LoadEachIsFold(env, names[1..], base, level, Over(file, config), [path] + loaded + added, below + layers);
    }
  }

  lemma {:induction false} LoadFileIsFold(env: Env, path: string, level: nat, rank: nat)
    requires ValidEnv(env) && level <= MAX_LEVEL && LoadFile(env, path, level, rank).Ok?
    ensures Strip(LoadFile(env, path, level, rank).value.0) == Strip(Fold(FileLayers(env, path, level, rank)))
    decreases MAX_LEVEL + 1 - level, rank, 0
  {
    var file := env.files[path];
    FoldOfOne(file);
    match Child(file, ADD) {
      case Some(Names(more)) =>
        var sub := Load(env, more, Some(env.parent(path)), level + 1).value;
        var layers := Layers(env, more, Some(env.parent(path)), level + 1);
        LoadIsFold(env, more, Some(env.parent(path)), level + 1);
        StripOfMerge(file, sub);
        StripOfMerge(file, Fold(layers));
        FoldOfTwo(layers, [file]);
      case _ =>
    }
  }

  /** The number of the last layer that defines `path`; -1 if none does. */
  function LastDefinition(layers: seq<Json>, path: seq<string>): (i: int)
    ensures -1 <= i < |layers|
    ensures 0 <= i ==> Defines(layers[i], path)
    ensures forall k :: i < k < |layers| ==> !Defines(layers[k], path)
  {
    if layers == [] then -1
    else if Defines(layers[|layers| - 1], path) then |layers| - 1
    else LastDefinition(layers[..|layers| - 1], path)
  }

  lemma {:induction false} FoldTakesLast(layers: seq<Json>, path: seq<string>)
    requires AllObjects(layers) && path != [] && forall l :: l in layers ==> Shaped(l, path)
    ensures Shaped(Fold(layers), path)
    ensures var i := LastDefinition(layers, path);
      At(Fold(layers), path) == if i < 0 then None else At(layers[i], path)
    decreases layers
  {
    if layers != [] {
      var init, top := layers[..|layers| - 1], layers[|layers| - 1];
      FoldTakesLast(init, path);
      MergeAt(top, Fold(init), path);
    }
  }

  /**
    Loading any nested list of files gives every setting the value of the last layer that defines it,
    as long as no layer has a dictionary where another has a plain value on the way to it.
   */
  lemma LastDefinitionWins(env: Env, names: seq<string>, path: seq<string>)
    requires ValidEnv(env) && Load(env, names, None, 0).Ok?
    requires path != [] && path[0] != LOADED
    requires forall l :: l in Layers(env, names, None, 0) ==> Shaped(l, path)
    ensures var layers := Layers(env, names, None, 0);
      var i := LastDefinition(layers, path);
      At(Load(env, names, None, 0).value, path) == if i < 0 then None else At(layers[i], path)
  {
    var config, layers := Load(env, names, None, 0).value, Layers(env, names, None, 0);
    LoadIsFold(env, names, None, 0);
    FoldTakesLast(layers, path);
    assert Child(config, path[0]) == Child(Strip(config), path[0]);
    assert Child(Fold(layers), path[0]) == Child(Strip(Fold(layers)), path[0]);
  }

  /** Reading `names` in order comes to a file of `cycle` before any standard input. */
  predicate LeadsInto(env: Env, names: seq<string>, base: Option<string>, cycle: set<string>) {
    exists i :: 0 <= i < |names| && "-" !in names[..i + 1] && PathOf(env, base, names[i]) in cycle
  }

  /** Every file of `cycle` adds a file of `cycle`. */
  predicate AddsItself(env: Env, cycle: set<string>) {
    forall p :: p in cycle ==>
      p in env.files
      && match Child(env.files[p], ADD)
         case Some(Names(more)) => LeadsInto(env, more, Some(env.parent(p)), cycle)
         case _ => false
  }

  /** No list of files that leads into a cycle of files adding each other is ever loaded, however long the cycle. */
  lemma {:induction false} CyclesNeverLoad(env: Env, names: seq<string>, base: Option<string>, level: nat,
                                           cycle: set<string>)
    requires ValidEnv(env) && AddsItself(env, cycle) && LeadsInto(env, names, base, cycle)
    ensures Load(env, names, base, level).Err?
    decreases MAX_LEVEL + 1 - level, 1
  {
    if level <= MAX_LEVEL {
      var i: nat :| i < |names| && "-" !in names[..i + 1] && PathOf(env, base, names[i]) in cycle;
      var path := PathOf(env, base, names[i]);
      CycleFileFails(env, path, level, cycle);
      FailingFileFails(env, names, base, level, EMPTY, [], i, path);
    }
  }

  lemma {:induction false} CycleFileFails(env: Env, path: string, level: nat, cycle: set<string>)
    requires ValidEnv(env) && AddsItself(env, cycle) && path in cycle && level <= MAX_LEVEL
    ensures forall rank: nat :: LoadFile(env, path, level, rank).Err?
    decreases MAX_LEVEL + 1 - level, 0
  {
    var more := Child(env.files[path], ADD).value.names;
    CyclesNeverLoad(env, more, Some(env.parent(path)), level + 1, cycle);
  }

  lemma {:induction false} FailingFileFails(env: Env, names: seq<string>, base: Option<string>, level: nat,
                                            config: Json, loaded: seq<string>, i: nat, path: string)
    requires ValidEnv(env) && level <= MAX_LEVEL && config.Obj?
    requires i < |names| && "-" !in names[..i + 1]
    requires path == PathOf(env, base, names[i]) && forall rank: nat :: LoadFile(env, path, level, rank).Err?
    ensures LoadEach(env, names, base, level, config, loaded).Err?
    decreases i
  {
    assert names[..i + 1][0] == names[0];
    var here := PathOf(env, base, names[0]);
    var first := LoadFile(env, here, level, |names|);
    if i > 0 && first.Ok? && !Raises(first.value.0, config, true) {
      assert names[1..][..i] == names[..i + 1][1..];
      var (file, added) := first.value;
      FailingFileFails(env, names[1..], base, level, Over(file, config), [here] + loaded + added, i - 1, path);
    }
  }

  /** A file that adds itself is never loaded: the level bound ends the recursion with an error. */
  lemma {:induction false} IncludingItselfFails(env: Env, name: string, base: Option<string>, level: nat,
                                                more: seq<string>)
    requires ValidEnv(env) && name != "-" && PathOf(env, base, name) in env.files
    requires var path := PathOf(env, base, name);
      && Child(env.files[path], ADD) == Some(Names([name] + more))
      && env.join(env.parent(path), name) == path
    ensures Load(env, [name], base, level) == Err(ConfigLoop)
    ensures Load(env, [name] + more, base, level) == Err(ConfigLoop)
    decreases MAX_LEVEL + 1 - level
  {
    if level <= MAX_LEVEL {
      var path := PathOf(env, base, name);
      IncludingItselfFails(env, name, Some(env.parent(path)), level + 1, more);
      assert ([name] + more)[0] == name;
      assert LoadFile(env, path, level, 1) == Err(ConfigLoop);
      assert LoadFile(env, path, level, |[name] + more|) == Err(ConfigLoop);
    }
  }
}
