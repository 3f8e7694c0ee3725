/**
  How the Node entry point finds its native addon: a node-gyp build under
  build/Release or build/Debug, else a prebuild under prebuilds/<platform>-<archs>/
  chosen by its dot-separated file-name tags. The filesystem is a map from a
  directory path to its entries; a path missing from the map is one that
  readdirSync throws on. The process environment is a parameter.
*/
module Bindings {
  import opened Wrappers

  // ---------------------------------------------------------------------
  // Strings and paths
  // ---------------------------------------------------------------------

  predicate StartsWith(s: string, prefix: string)
  {
    |prefix| <= |s| && s[..|prefix|] == prefix
  }

  predicate EndsWith(s: string, suffix: string)
  {
    |suffix| <= |s| && s[|s| - |suffix|..] == suffix
  }

  /** String.prototype.split with a one-character separator: n separators give n + 1 parts. */
  function Split(s: string, sep: char): (parts: seq<string>)
    ensures |parts| >= 1
    ensures forall i :: 0 <= i < |parts| ==> sep !in parts[i]
    decreases |s|
  {
    if |s| == 0 then [""]
    else if s[0] == sep then [""] + Split(s[1..], sep)
    else
      var rest := Split(s[1..], sep);
      [[s[0]] + rest[0]] + rest[1..]
  }

  /** Array.prototype.join with a one-character separator. */
  function JoinParts(parts: seq<string>, sep: char): string
    requires |parts| >= 1
  {
    if |parts| == 1 then parts[0] else parts[0] + [sep] + JoinParts(parts[1..], sep)
  }

  /** Joining the parts of a split gives the string back. */
  lemma {:induction false} JoinSplit(s: string, sep: char)
    ensures JoinParts(Split(s, sep), sep) == s
    decreases |s|
  {
    if |s| > 0 {
      JoinSplit(s[1..], sep);
      var rest := Split(s[1..], sep);
      if s[0] == sep {
        assert ([""] + rest)[1..] == rest;
      } else {
        var parts := [[s[0]] + rest[0]] + rest[1..];
        if |rest| > 1 {
          assert parts[1..] == rest[1..];
          assert JoinParts(rest, sep) == rest[0] + [sep] + JoinParts(rest[1..], sep);
        }
      }
    }
  }

  /** A string without the separator is one part, so the "+" list of a name is never empty. */
  lemma {:induction false} SplitWithoutSep(s: string, sep: char)
    requires forall i :: 0 <= i < |s| ==> s[i] != sep
    ensures Split(s, sep) == [s]
    decreases |s|
  {
    if |s| > 0 {
      SplitWithoutSep(s[1..], sep);
      assert [s[0]] + s[1..] == s;
    }
  }

  /** Splitting at the first separator. */
  lemma {:induction false} SplitAtFirst(a: string, sep: char, b: string)
    requires forall i :: 0 <= i < |a| ==> a[i] != sep
    ensures Split(a + [sep] + b, sep) == [a] + Split(b, sep)
    decreases |a|
  {
    var s := a + [sep] + b;
    if |a| == 0 {
      assert s[1..] == b;
    } else {
      assert s[1..] == a[1..] + [sep] + b;
      SplitAtFirst(a[1..], sep, b);
      assert [a[0]] + a[1..] == a;
    }
  }

  /** path.join of a directory and one more segment, without normalisation. */
  function Join(dir: string, name: string): (p: string)
    ensures StartsWith(p, dir + "/") && p[|dir| + 1..] == name
  {
    var p := dir + "/" + name;
    assert p[..|dir| + 1] == dir + "/";
    p
  }

  // ---------------------------------------------------------------------
  // The filesystem and the environment
  // ---------------------------------------------------------------------

  /** A Dirent from readdirSync(dir, { withFileTypes: true }). */
  datatype Entry = Entry(name: string, isFile: bool, isDirectory: bool)

  /** The directories readdirSync can list, with their entries in listing order. */
  type FileSystem = map<string, seq<Entry>>

  /** readdirSync: the entries, or None where it throws. */
  function ReadDir(fs: FileSystem, dir: string): (r: Option<seq<Entry>>)
    ensures r.Some? <==> dir in fs
    ensures r.Some? ==> r.value == fs[dir]
  {
    if dir in fs then Some(fs[dir]) else None
  }

  /** The values the module computes from the process at load time. */
  datatype Env = Env(platform: string, arch: string, runtime: string, abi: string,
                     libc: string, uv: string, armv: string)

  datatype FsError = ReadDirFailed

  // ---------------------------------------------------------------------
  // findArch
  // ---------------------------------------------------------------------

  /**
    The number of architectures a prebuild directory serves, when it is a
    directory named <platform>-<archs> for this platform whose "+"-list
    names this arch and has no empty element; None when findArch skips it.
  */
  function ArchCount(e: Entry, env: Env): (r: Option<nat>)
    ensures r.Some? ==> e.isDirectory && |Split(e.name, '-')| == 2 && 1 <= r.value
  {
    if !e.isDirectory then None
    else
      var split := Split(e.name, '-');
      if |split| != 2 || split[0] != env.platform then None
      else
        var archs := Split(split[1], '+');
        if (exists i :: 0 <= i < |archs| && archs[i] != env.arch && archs[i] == "")
          || env.arch !in archs
        then None
        else Some(|archs|)
  }

  /** es[i] matches and no match among the first n serves fewer archs, nor as few before it. */
  predicate FirstFewest(es: seq<Entry>, n: nat, i: nat, env: Env)
    requires n <= |es|
  {
    i < n && ArchCount(es[i], env).Some? &&
    (forall j :: 0 <= j < n && ArchCount(es[j], env).Some? ==>
      ArchCount(es[i], env).value <= ArchCount(es[j], env).value) &&
    (forall j :: 0 <= j < i && ArchCount(es[j], env).Some? ==>
      ArchCount(es[i], env).value < ArchCount(es[j], env).value)
  }

  /** At most one entry is the first of the fewest. */
  lemma {:induction false} FirstFewestUnique(es: seq<Entry>, n: nat, i: nat, j: nat, env: Env)
    requires n <= |es| && FirstFewest(es, n, i, env) && FirstFewest(es, n, j, env)
    ensures i == j
  {
  }

  /** findArch's result as a value: dir joined to the first of its entries serving the fewest archs. */
  ghost function ArchDirOf(fs: FileSystem, dir: string, env: Env): (r: Option<string>)
    ensures r.Some? ==> StartsWith(r.value, dir + "/")
  {
    if dir in fs && exists i :: 0 <= i < |fs[dir]| && FirstFewest(fs[dir], |fs[dir]|, i, env) then
      var i :| 0 <= i < |fs[dir]| && FirstFewest(fs[dir], |fs[dir]|, i, env);
      Some(Join(dir, fs[dir][i].name))
    else
      None
  }

  /** The entry that is the first of the fewest is the one ArchDirOf names. */
  lemma {:induction false} ArchDirOfIs(fs: FileSystem, dir: string, env: Env, i: nat)
    requires dir in fs && i < |fs[dir]| && FirstFewest(fs[dir], |fs[dir]|, i, env)
    ensures ArchDirOf(fs, dir, env) == Some(Join(dir, fs[dir][i].name))
  {
    var j :| 0 <= j < |fs[dir]| && FirstFewest(fs[dir], |fs[dir]|, j, env) && ArchDirOf(fs, dir, env) == Some(Join(dir, fs[dir][j].name));
    FirstFewestUnique(fs[dir], |fs[dir]|, i, j, env);
  }

  /**
    The `for (const s of archs)` scan: skip when an element other than the
    arch is empty (the scan stops there); otherwise whether the arch occurs.
  */
  method ScanArchs(archs: seq<string>, arch: string) returns (matches: bool, skip: bool)
    ensures skip <==> exists i :: 0 <= i < |archs| && archs[i] != arch && archs[i] == ""
    ensures !skip ==> (matches <==> arch in archs)
  {
    matches, skip := false, false;
    for i := 0 to |archs|
      invariant matches <==> arch in archs[..i]
      invariant forall j :: 0 <= j < i ==> !(archs[j] != arch && archs[j] == "")
    {
      if archs[i] == arch {
        matches := true;
      } else if |archs[i]| == 0 {
        skip := true;
        return;
      }
      assert archs[..i + 1] == archs[..i] + [archs[i]];
    }
    assert archs[..|archs|] == archs;
  }

  /**
    The checks of one entry before the pick is compared: the length of its
    arch list, or None where the loop continues. The source also skips an
    empty arch list, which a split never yields.
  */
  method DirArchCount(file: Entry, env: Env) returns (count: Option<nat>)
    ensures count == ArchCount(file, env)
  {
    if !file.isDirectory {
      return None;
    }
    var split := Split(file.name, '-');
    if |split| != 2 || split[0] != env.platform {
      return None;
    }
    var archs := Split(split[1], '+');
    var matches, skip := ScanArchs(archs, env.arch);
    if skip || !matches {
      return None;
    }
    count := Some(|archs|);
  }

  /**
    findArch: under dir, the first of the matching directories that serve
    the fewest archs; None when readdirSync throws or nothing matches.
  */
  method FindArch(fs: FileSystem, dir: string, env: Env) returns (r: Option<string>)
    ensures dir !in fs ==> r.None?
    ensures dir in fs ==> (r.None? <==> forall i :: 0 <= i < |fs[dir]| ==> ArchCount(fs[dir][i], env).None?)
    ensures r.Some? ==> (dir in fs &&
      exists i :: 0 <= i < |fs[dir]| && FirstFewest(fs[dir], |fs[dir]|, i, env) && r.value == Join(dir, fs[dir][i].name))
    ensures r == ArchDirOf(fs, dir, env)
  {
    var listing := ReadDir(fs, dir);
    if listing.None? {
      return None;
    }
    var entries := listing.value;
    var pick: Option<string> := None;
    var specificity := 0x0fff_ffff;
    ghost var idx := 0;
    for k := 0 to |entries|
      invariant pick.None? <==> forall j :: 0 <= j < k ==> ArchCount(entries[j], env).None?
      invariant pick.Some? ==> (FirstFewest(entries, k, idx, env) && pick.value == entries[idx].name
        && specificity == ArchCount(entries[idx], env).value)
    {
      var count := DirArchCount(entries[k], env);
      if count.None? {
        continue;
      }
      if pick.None? || count.value < specificity {
        pick := Some(entries[k].name);
        specificity := count.value;
        idx := k;
      }
    }
    r := if pick.Some? then Some(Join(dir, pick.value)) else None;
    if pick.Some? {
      ArchDirOfIs(fs, dir, env, idx);
    }
  }

  // ---------------------------------------------------------------------
  // findPrebuild: the tags of one file name
  // ---------------------------------------------------------------------

  /** What one dot-separated tag of a prebuild name says, against the environment. */
  datatype TagClass =
    | RuntimeTag(runtime: string)
    | NapiTag
    | LibcTag
    | UvTag
    | AbiTag(abi: string)
    | ArmvTag
    | Mismatch   // a libc, uv or armv tag for another environment: the file is rejected
    | Unknown    // not a recognised tag: ignored

  /** The switch over one tag. */
  function Classify(tag: string, env: Env): TagClass
  {
    if tag == "node" || tag == "node-webkit" || tag == "electron" then RuntimeTag(tag)
    else if tag == "napi" then NapiTag
    else if tag == "glibc" || tag == "musl" then (if env.libc != tag then Mismatch else LibcTag)
    else if StartsWith(tag, "uv") then (if env.uv != tag[2..] then Mismatch else UvTag)
    else if StartsWith(tag, "abi") then AbiTag(tag[3..])
    else if StartsWith(tag, "armv") then (if env.armv != tag[4..] then Mismatch else ArmvTag)
    else Unknown
  }

  /**
    Runtime and abi tags carry their own names, a libc, uv or armv tag is
    recognised only for this environment, and a mismatch is such a tag for
    another one.
  */
  lemma {:induction false} ClassifyMeaning(tag: string, env: Env)
    ensures var c := Classify(tag, env);
      && (c.RuntimeTag? ==> c.runtime == tag)
      && (c.AbiTag? ==> tag == "abi" + c.abi)
      && (c.LibcTag? ==> tag == env.libc)
      && (c.UvTag? ==> tag == "uv" + env.uv)
      && (c.ArmvTag? ==> tag == "armv" + env.armv)
      && (c.Mismatch? ==>
           || ((tag == "glibc" || tag == "musl") && tag != env.libc)
           || (StartsWith(tag, "uv") && tag != "uv" + env.uv)
           || (StartsWith(tag, "armv") && tag != "armv" + env.armv))
  {
  }

  /** The tagType strings the source keeps in its `seen` set. */
  datatype TagKind = RuntimeKind | NapiKind | LibcKind | UvKind | AbiKind | ArmvKind

  predicate Recognised(c: TagClass)
  {
    !c.Mismatch? && !c.Unknown?
  }

  function KindOf(c: TagClass): TagKind
    requires Recognised(c)
  {
    match c
    case RuntimeTag(_) => RuntimeKind
    case NapiTag => NapiKind
    case LibcTag => LibcKind
    case UvTag => UvKind
    case AbiTag(_) => AbiKind
    case ArmvTag => ArmvKind
  }

  /** The Tags record built for one file: runtime and abi are the last such tags seen. */
  datatype Tags = Tags(file: string, specificity: nat, runtime: Option<string>, napi: bool, abi: Option<string>)

  /** Some tag of the list rejects the file. */
  predicate Rejects(arr: seq<string>, env: Env)
  {
    |arr| > 0 && (Rejects(arr[..|arr| - 1], env) || Classify(arr[|arr| - 1], env).Mismatch?)
  }

  /** The kinds of the recognised tags of the list. */
  function Kinds(arr: seq<string>, env: Env): set<TagKind>
  {
    if |arr| == 0 then {}
    else
      var c := Classify(arr[|arr| - 1], env);
      Kinds(arr[..|arr| - 1], env) + if Recognised(c) then {KindOf(c)} else {}
  }

  function LastRuntime(arr: seq<string>, env: Env): Option<string>
  {
    if |arr| == 0 then None
    else
      var c := Classify(arr[|arr| - 1], env);
      if c.RuntimeTag? then Some(c.runtime) else LastRuntime(arr[..|arr| - 1], env)
  }

  function LastAbi(arr: seq<string>, env: Env): Option<string>
  {
    if |arr| == 0 then None
    else
      var c := Classify(arr[|arr| - 1], env);
      if c.AbiTag? then Some(c.abi) else LastAbi(arr[..|arr| - 1], env)
  }

  predicate HasNapi(arr: seq<string>, env: Env)
  {
    |arr| > 0 && (HasNapi(arr[..|arr| - 1], env) || Classify(arr[|arr| - 1], env).NapiTag?)
  }

  /** The tags of a file whose name, without ".node", splits into arr; None when a tag rejects it. */
  function TagsOf(file: string, arr: seq<string>, env: Env): (r: Option<Tags>)
    ensures r.None? <==> exists i :: 0 <= i < |arr| && Classify(arr[i], env).Mismatch?
    ensures r.Some? ==> r.value.file == file && r.value.specificity <= |arr|
  {
    RejectsIff(arr, env);
    KindsBound(arr, env);
    if Rejects(arr, env) then None
    else Some(Tags(file, |Kinds(arr, env)|, LastRuntime(arr, env), HasNapi(arr, env), LastAbi(arr, env)))
  }

  /** Each tag adds at most one kind. */
  lemma {:induction false} KindsBound(arr: seq<string>, env: Env)
    ensures |Kinds(arr, env)| <= |arr|
  {
    if |arr| > 0 {
      var init := arr[..|arr| - 1];
      KindsBound(init, env);
      var c := Classify(arr[|arr| - 1], env);
      if Recognised(c) {
        var k := Kinds(init, env);
        assert |k + {KindOf(c)}| <= |k| + 1 by {
          if KindOf(c) in k {
            assert k + {KindOf(c)} == k;
          }
        }
      }
    }
  }

  /** The `tags:` loop over the segments before ".node". */
  method ParseTags(file: string, arr: seq<string>, env: Env) returns (r: Option<Tags>)
    ensures r == TagsOf(file, arr, env)
  {
    var tags := Tags(file, 0, None, false, None);
    var seen: set<TagKind> := {};
    for i := 0 to |arr|
      invariant !Rejects(arr[..i], env)
      invariant seen == Kinds(arr[..i], env)
      invariant tags == Tags(file, |seen|, LastRuntime(arr[..i], env), HasNapi(arr[..i], env), LastAbi(arr[..i], env))
    {
      var c := Classify(arr[i], env);
      TagStep(arr, i, env);
      if c.Mismatch? {
        RejectsPrefix(arr, i + 1, env);
        return None;
      }
      if c.Unknown? {
        continue;
      }
      if c.RuntimeTag? {
        tags := tags.(runtime := Some(c.runtime));
      } else if c.NapiTag? {
        tags := tags.(napi := true);
      } else if c.AbiTag? {
        tags := tags.(abi := Some(c.abi));
      }
      var kind := KindOf(c);
      if kind !in seen {
        seen := seen + {kind};
        tags := tags.(specificity := tags.specificity + 1);
      }
    }
    assert arr[..|arr|] == arr;
    r := Some(tags);
  }

  /** What one more tag does to each part of the record. */
  lemma {:induction false} TagStep(arr: seq<string>, i: nat, env: Env)
    requires i < |arr|
    ensures Rejects(arr[..i + 1], env) == (Rejects(arr[..i], env) || Classify(arr[i], env).Mismatch?)
    ensures Kinds(arr[..i + 1], env) ==
      Kinds(arr[..i], env) + if Recognised(Classify(arr[i], env)) then {KindOf(Classify(arr[i], env))} else {}
    ensures LastRuntime(arr[..i + 1], env) ==
      if Classify(arr[i], env).RuntimeTag? then Some(Classify(arr[i], env).runtime) else LastRuntime(arr[..i], env)
    ensures LastAbi(arr[..i + 1], env) ==
      if Classify(arr[i], env).AbiTag? then Some(Classify(arr[i], env).abi) else LastAbi(arr[..i], env)
    ensures HasNapi(arr[..i + 1], env) == (HasNapi(arr[..i], env) || Classify(arr[i], env).NapiTag?)
  {
    assert arr[..i + 1][..i] == arr[..i] && arr[..i + 1][i] == arr[i];
  }

  /** A rejecting prefix rejects the whole list. */
  lemma {:induction false} RejectsPrefix(arr: seq<string>, n: nat, env: Env)
    requires n <= |arr| && Rejects(arr[..n], env)
    ensures Rejects(arr, env)
    decreases |arr| - n
  {
    if n < |arr| {
      assert arr[..n + 1][..n] == arr[..n];
      RejectsPrefix(arr, n + 1, env);
    } else {
      assert arr[..n] == arr;
    }
  }

  /** A file is rejected exactly when one of its tags is a mismatch. */
  lemma {:induction false} RejectsIff(arr: seq<string>, env: Env)
    ensures Rejects(arr, env) <==> exists i :: 0 <= i < |arr| && Classify(arr[i], env).Mismatch?
  {
    if |arr| > 0 {
      var init := arr[..|arr| - 1];
      RejectsIff(init, env);
      if exists i :: 0 <= i < |init| && Classify(init[i], env).Mismatch? {
        var i :| 0 <= i < |init| && Classify(init[i], env).Mismatch?;
        assert arr[i] == init[i];
      }
      if exists i :: 0 <= i < |arr| && Classify(arr[i], env).Mismatch? {
        var i :| 0 <= i < |arr| && Classify(arr[i], env).Mismatch?;
        if i < |init| {
          assert init[i] == arr[i];
        }
      }
    }
  }

  /** Every kind is one of the six, so at most six of the tags count. */
  lemma {:induction false} SpecificityBound(file: string, arr: seq<string>, env: Env)
    requires TagsOf(file, arr, env).Some?
    ensures TagsOf(file, arr, env).value.specificity <= 6
  {
    var all := {RuntimeKind, NapiKind, LibcKind, UvKind, AbiKind, ArmvKind};
    KindsWithin(arr, env);
    SixKinds();
    SubsetCard(Kinds(arr, env), all);
  }

  lemma {:induction false} SixKinds()
    ensures |{RuntimeKind, NapiKind, LibcKind, UvKind, AbiKind, ArmvKind}| == 6
  {
    var five := {RuntimeKind, NapiKind, LibcKind, UvKind, AbiKind};
    assert |five| == 5;
    assert five + {ArmvKind} == {RuntimeKind, NapiKind, LibcKind, UvKind, AbiKind, ArmvKind};
  }

  lemma {:induction false} KindsWithin(arr: seq<string>, env: Env)
    ensures Kinds(arr, env) <= {RuntimeKind, NapiKind, LibcKind, UvKind, AbiKind, ArmvKind}
  {
    if |arr| > 0 {
      KindsWithin(arr[..|arr| - 1], env);
    }
  }

  lemma {:induction false} SubsetCard<T>(a: set<T>, b: set<T>)
    requires a <= b
    ensures |a| <= |b|
  {
    assert b == a + (b - a);
  }

  /** An unrecognised tag changes nothing, wherever the list ends. */
  lemma {:induction false} UnknownTagIgnored(file: string, arr: seq<string>, tag: string, env: Env)
    requires Classify(tag, env).Unknown?
    ensures TagsOf(file, arr + [tag], env) == TagsOf(file, arr, env)
  {
    assert (arr + [tag])[..|arr|] == arr;
  }

  /** A second tag of a kind already seen does not raise the specificity. */
  lemma {:induction false} RepeatedKindCountsOnce(arr: seq<string>, tag: string, env: Env)
    requires Recognised(Classify(tag, env)) && KindOf(Classify(tag, env)) in Kinds(arr, env)
    ensures Kinds(arr + [tag], env) == Kinds(arr, env)
  {
    assert (arr + [tag])[..|arr|] == arr;
  }

  /** A tag of a new kind raises it by one. */
  lemma {:induction false} NewKindCounts(arr: seq<string>, tag: string, env: Env)
    requires Recognised(Classify(tag, env)) && KindOf(Classify(tag, env)) !in Kinds(arr, env)
    ensures |Kinds(arr + [tag], env)| == |Kinds(arr, env)| + 1
  {
    assert (arr + [tag])[..|arr|] == arr;
  }

  // ---------------------------------------------------------------------
  // findPrebuild: choosing among the files
  // ---------------------------------------------------------------------

  /** A build for this runtime, or a Node-API build for node; and for this abi unless Node-API. */
  predicate Accepted(t: Tags, env: Env): (ok: bool)
    ensures ok <==>
      if t.napi then t.runtime == Some(env.runtime) || t.runtime == Some("node")
      else t.runtime == Some(env.runtime) && t.abi == Some(env.abi)
  {
    !(t.runtime != Some(env.runtime) && (t.runtime != Some("node") || !t.napi)) &&
    !(t.abi != Some(env.abi) && !t.napi)
  }

  predicate Truthy(s: Option<string>)
  {
    s.Some? && s.value != ""
  }

  /** The tags of a regular "*.node" file that passes every check, None for a skipped entry. */
  function Candidate(e: Entry, env: Env): (c: Option<Tags>)
    ensures c.Some? ==> e.isFile && Accepted(c.value, env) && c.value.runtime.Some? && c.value.file == e.name
  {
    if !e.isFile then None
    else
      var arr := Split(e.name, '.');
      if arr[|arr| - 1] != "node" then None
      else
        var t := TagsOf(e.name, arr[..|arr| - 1], env);
        if t.None? || !Accepted(t.value, env) then None else t
  }

  /** The condition under which the loop replaces its pick, as written. */
  predicate Replaces(pick: Tags, t: Tags, env: Env): (b: bool)
    ensures pick.specificity < t.specificity ==> b
    ensures b && pick.runtime == t.runtime && pick.abi == t.abi ==> pick.specificity < t.specificity
    ensures pick == t ==> !b
  {
    (pick.runtime != t.runtime && t.runtime != Some(env.runtime)) ||
    (pick.abi != t.abi && Truthy(t.abi)) ||
    pick.specificity < t.specificity
  }

  /** The pick after the files es, in order, as the loop computes it. */
  function PickAsWritten(es: seq<Entry>, env: Env): (r: Option<Tags>)
    ensures r.Some? ==> Accepted(r.value, env) && r.value.runtime.Some?
    ensures |es| > 0 && Candidate(es[|es| - 1], env).Some? ==> r.Some?
  {
    if |es| == 0 then None
    else
      var p := PickAsWritten(es[..|es| - 1], env);
      var c := Candidate(es[|es| - 1], env);
      if c.Some? && (p.None? || Replaces(p.value, c.value, env)) then c else p
  }

  /** There is a pick exactly when some file is a candidate, and the pick is one of them. */
  lemma {:induction false} PickAsWrittenIsCandidate(es: seq<Entry>, env: Env)
    ensures PickAsWritten(es, env).None? <==> forall i :: 0 <= i < |es| ==> Candidate(es[i], env).None?
    ensures PickAsWritten(es, env).Some? ==>
      exists i :: 0 <= i < |es| && Candidate(es[i], env) == PickAsWritten(es, env)
  {
    if |es| > 0 {
      var init := es[..|es| - 1];
      PickAsWrittenIsCandidate(init, env);
      assert forall i :: 0 <= i < |init| ==> init[i] == es[i];
    }
  }

  /** The `files:` loop of findPrebuild over the entries of the prebuild directory. */
  method PickPrebuild(entries: seq<Entry>, env: Env) returns (pick: Option<Tags>)
    ensures pick == PickAsWritten(entries, env)
  {
    pick := None;
    for k := 0 to |entries|
      invariant pick == PickAsWritten(entries[..k], env)
    {
      assert entries[..k + 1][..k] == entries[..k] && entries[..k + 1][k] == entries[k];
      var tags := FileTags(entries[k], env);
      if tags.None? {
        continue;
      }
      if pick.None? || Replaces(pick.value, tags.value, env) {
        pick := tags;
      }
    }
    assert entries[..|entries|] == entries;
  }

  /** The checks of one file before the pick is compared: None where the loop continues. */
  method FileTags(file: Entry, env: Env) returns (tags: Option<Tags>)
    ensures tags == Candidate(file, env)
  {
    if !file.isFile {
      return None;
    }
    var arr := Split(file.name, '.');
    var last := arr[|arr| - 1];
    if last != "node" {
      return None;
    }
    tags := ParseTags(file.name, arr[..|arr| - 1], env);
    if tags.None? {
      return None;
    }
    if tags.value.runtime != Some(env.runtime) && (tags.value.runtime != Some("node") || !tags.value.napi) {
      return None;
    }
    if tags.value.abi != Some(env.abi) && !tags.value.napi {
      return None;
    }
  }

  /**
    What findPrebuild returns: the file the loop picks in findArch's directory
    under dir/prebuilds, joined to that directory.
  */
  ghost function PrebuildOf(fs: FileSystem, dir: string, env: Env): (r: Result<Option<string>, FsError>)
    ensures Join(dir, "prebuilds") !in fs ==> r == Ok(None)
    ensures r.Ok? && r.value.Some? ==> StartsWith(r.value.value, Join(dir, "prebuilds") + "/") && r.value.value != ""
  {
    var arch := ArchDirOf(fs, Join(dir, "prebuilds"), env);
    if arch.None? then Ok(None)
    else if arch.value !in fs then Err(ReadDirFailed)
    else
      var pick := PickAsWritten(fs[arch.value], env);
      if pick.None? then Ok(None)
      else
        StartsWithJoin(Join(dir, "prebuilds"), arch.value, pick.value.file);
        Ok(Some(Join(arch.value, pick.value.file)))
  }

  /** A file joined to a directory under p is itself under p. */
  lemma {:induction false} StartsWithJoin(p: string, d: string, name: string)
    requires StartsWith(d, p + "/")
    ensures StartsWith(Join(d, name), p + "/")
  {
    var q := Join(d, name);
    assert q[..|d|] == d;
    assert q[..|p| + 1] == d[..|p| + 1];
  }

  /**
    findPrebuild: the chosen file of the arch directory under dir/prebuilds,
    joined to that directory. Ok(None) when there is no arch directory or no
    file qualifies; the second readdirSync is not guarded, so it can throw.
  */
  method FindPrebuild(fs: FileSystem, dir: string, env: Env) returns (r: Result<Option<string>, FsError>)
    ensures r == PrebuildOf(fs, dir, env)
    ensures r.Err? <==> ArchDirOf(fs, Join(dir, "prebuilds"), env).Some? && ArchDirOf(fs, Join(dir, "prebuilds"), env).value !in fs
    ensures r.Ok? && r.value.Some? ==>
      var arch := ArchDirOf(fs, Join(dir, "prebuilds"), env).value;
      arch in fs && PickAsWritten(fs[arch], env).Some? && r.value.value == Join(arch, PickAsWritten(fs[arch], env).value.file)
  {
    var prebuilds := FindArch(fs, Join(dir, "prebuilds"), env);
    if prebuilds.None? {
      return Ok(None);
    }
    var listing := ReadDir(fs, prebuilds.value);
    if listing.None? {
      return Err(ReadDirFailed);
    }
    var pick := PickPrebuild(listing.value, env);
    r := Ok(if pick.Some? then Some(Join(prebuilds.value, pick.value.file)) else None);
  }

  // ---------------------------------------------------------------------
  // findBuild and the module path
  // ---------------------------------------------------------------------

  /** A regular "*.node" file; its name is never the falsy empty string. */
  predicate IsBuild(e: Entry): (ok: bool)
    ensures ok ==> e.isFile && |e.name| >= 5 && e.name != ""
  {
    e.isFile && EndsWith(e.name, ".node")
  }

  /** Array.prototype.find for the first regular "*.node" file. */
  function FirstBuild(es: seq<Entry>): (r: Option<nat>)
    ensures r.None? <==> forall i :: 0 <= i < |es| ==> !IsBuild(es[i])
    ensures r.Some? ==> (r.value < |es| && IsBuild(es[r.value]) &&
      forall j :: 0 <= j < r.value ==> !IsBuild(es[j]))
  {
    if |es| == 0 then None
    else if IsBuild(es[0]) then Some(0)
    else
      var r := FirstBuild(es[1..]);
      assert forall i :: 1 <= i < |es| ==> es[i] == es[1..][i - 1];
      if r.Some? then Some(r.value + 1) else None
  }

  /** findBuild as written: the bare name of that file, None when readdirSync throws or there is none. */
  function FindBuild(fs: FileSystem, dir: string): (r: Option<string>)
    ensures r.Some? <==> dir in fs && FirstBuild(fs[dir]).Some?
    ensures r.Some? ==> r.value == fs[dir][FirstBuild(fs[dir]).value].name
  {
    var listing := ReadDir(fs, dir);
    if listing.None? then None
    else
      var i := FirstBuild(listing.value);
      if i.None? then None else Some(listing.value[i.value].name)
  }

  /** findBuild with the file joined to its directory, as findPrebuild returns its file. */
  function FindBuildCorrected(fs: FileSystem, dir: string): (r: Option<string>)
    ensures r.Some? <==> FindBuild(fs, dir).Some?
    ensures r.Some? ==> r.value == Join(dir, FindBuild(fs, dir).value) && StartsWith(r.value, dir + "/")
  {
    var name := FindBuild(fs, dir);
    if name.None? then None else Some(Join(dir, name.value))
  }

  /** A directory whose only entry is a build: findBuild reports that entry's name. */
  lemma {:induction false} FindBuildOfOne(dir: string, e: Entry)
    requires IsBuild(e)
    ensures FindBuild(map[dir := [e]], dir) == Some(e.name)
  {
    assert FirstBuild([e]) == Some(0);
  }

  /** A build in build/Release is reported by its bare name, which require resolves outside that directory. */
  lemma {:induction false} FindBuildDropsDirectory()
    ensures FindBuild(map["r/build/Release" := [Entry("a.node", true, false)]], "r/build/Release") == Some("a.node")
    ensures FindBuildCorrected(map["r/build/Release" := [Entry("a.node", true, false)]], "r/build/Release")
      == Some(Join("r/build/Release", "a.node"))
    ensures !StartsWith("a.node", "r/build/Release/")
  {
    var name := "a.node";
    assert IsBuild(Entry(name, true, false)) by {
      assert name[1..] == ".node";
    }
    FindBuildOfOne("r/build/Release", Entry(name, true, false));
  }

  /**
    The module path: unless PREBUILDS_ONLY is set, a Release then a Debug
    build; then a prebuild under the package root, then one beside the
    executable. An empty name counts as none, as it is falsy.
  */
  method ModulePath(fs: FileSystem, root: string, execDir: string, env: Env, prebuildsOnly: bool)
    returns (r: Result<Option<string>, FsError>)
    ensures !prebuildsOnly && FindBuild(fs, Join(root, "build/Release")).Some? ==>
      r == Ok(FindBuild(fs, Join(root, "build/Release")))
    ensures (!prebuildsOnly && FindBuild(fs, Join(root, "build/Release")).None? &&
      FindBuild(fs, Join(root, "build/Debug")).Some?) ==>
      r == Ok(FindBuild(fs, Join(root, "build/Debug")))
    ensures ((prebuildsOnly || (FindBuild(fs, Join(root, "build/Release")).None? &&
      FindBuild(fs, Join(root, "build/Debug")).None?)) &&
      Join(root, "prebuilds") !in fs && Join(execDir, "prebuilds") !in fs) ==> r == Ok(None)
    ensures (prebuildsOnly || (FindBuild(fs, Join(root, "build/Release")).None? &&
      FindBuild(fs, Join(root, "build/Debug")).None?)) ==>
      r == if PrebuildOf(fs, root, env) != Ok(None) then PrebuildOf(fs, root, env) else PrebuildOf(fs, execDir, env)
    ensures r.Ok? && r.value.Some? ==>
      || (!prebuildsOnly && r.value == FindBuild(fs, Join(root, "build/Release")))
      || (!prebuildsOnly && r.value == FindBuild(fs, Join(root, "build/Debug")))
      || r == PrebuildOf(fs, root, env)
      || r == PrebuildOf(fs, execDir, env)
  {
    if !prebuildsOnly {
      var release := FindBuild(fs, Join(root, "build/Release"));
      if release.Some? {
        NonEmptyBuildName(fs, Join(root, "build/Release"));
        return Ok(release);
      }
      var debug := FindBuild(fs, Join(root, "build/Debug"));
      if debug.Some? {
        NonEmptyBuildName(fs, Join(root, "build/Debug"));
        return Ok(debug);
      }
    }
    var prebuild := FindPrebuild(fs, root, env);
    if prebuild.Err? || (prebuild.value.Some? && prebuild.value.value != "") {
      return prebuild;
    }
    var nearby := FindPrebuild(fs, execDir, env);
    if nearby.Err? || (nearby.value.Some? && nearby.value.value != "") {
      return nearby;
    }
    return Ok(None);
  }

  /** A build name ends in ".node", so it is never the falsy empty string. */
  lemma {:induction false} NonEmptyBuildName(fs: FileSystem, dir: string)
    requires FindBuild(fs, dir).Some?
    ensures FindBuild(fs, dir).value != ""
  {
  }

  // ---------------------------------------------------------------------
  // The intended choice among prebuilds
  // ---------------------------------------------------------------------

  /**
    The preference the replacement test is evidently meant to apply: a build
    for this very runtime first, then one with an abi tag, then more tags.
    Specificity is at most 6, so the three fit in one number.
  */
  function Rank(t: Tags, env: Env): nat
  {
    (if t.runtime == Some(env.runtime) then 16 else 0) + (if Truthy(t.abi) then 8 else 0) + t.specificity
  }

  function PickCorrected(es: seq<Entry>, env: Env): Option<Tags>
  {
    if |es| == 0 then None
    else
      var p := PickCorrected(es[..|es| - 1], env);
      var c := Candidate(es[|es| - 1], env);
      if c.Some? && (p.None? || Rank(p.value, env) < Rank(c.value, env)) then c else p
  }

  /** The corrected choice picks something exactly when some file is a candidate. */
  lemma {:induction false} PickCorrectedNone(es: seq<Entry>, env: Env)
    ensures PickCorrected(es, env).None? <==> forall i :: 0 <= i < |es| ==> Candidate(es[i], env).None?
  {
    if |es| > 0 {
      var init := es[..|es| - 1];
      PickCorrectedNone(init, env);
      assert forall i :: 0 <= i < |init| ==> init[i] == es[i];
    }
  }

  /** No candidate ranks above the corrected pick. */
  lemma {:induction false} PickCorrectedMax(es: seq<Entry>, env: Env)
    ensures forall j :: 0 <= j < |es| && Candidate(es[j], env).Some? ==>
      PickCorrected(es, env).Some? && Rank(Candidate(es[j], env).value, env) <= Rank(PickCorrected(es, env).value, env)
  {
    if |es| > 0 {
      var init := es[..|es| - 1];
      PickCorrectedMax(init, env);
      assert forall i :: 0 <= i < |init| ==> init[i] == es[i];
    }
  }

  /** es[i] has candidate tags t, and every earlier candidate ranks strictly lower. */
  predicate FirstOfRank(es: seq<Entry>, i: nat, t: Tags, env: Env)
  {
    i < |es| && Candidate(es[i], env) == Some(t) &&
    forall j :: 0 <= j < i && Candidate(es[j], env).Some? ==> Rank(Candidate(es[j], env).value, env) < Rank(t, env)
  }

  /** The corrected pick is the candidate of some file, and every earlier candidate ranks strictly lower. */
  lemma {:induction false} PickCorrectedFirst(es: seq<Entry>, env: Env)
    ensures PickCorrected(es, env).Some? ==> exists i :: FirstOfRank(es, i, PickCorrected(es, env).value, env)
  {
    if |es| > 0 {
      var n := |es| - 1;
      var init := es[..n];
      var p, c := PickCorrected(init, env), Candidate(es[n], env);
      if c.Some? && (p.None? || Rank(p.value, env) < Rank(c.value, env)) {
        PickCorrectedNone(init, env);
        PickCorrectedMax(init, env);
        forall j | 0 <= j < n && Candidate(es[j], env).Some?
          ensures Rank(Candidate(es[j], env).value, env) < Rank(c.value, env)
        {
          assert init[j] == es[j];
        }
        assert FirstOfRank(es, n, c.value, env);
      } else if p.Some? {
        PickCorrectedFirst(init, env);
        var i :| FirstOfRank(init, i, p.value, env);
        forall j | 0 <= j <= i
          ensures es[j] == init[j]
        {
        }
        assert FirstOfRank(es, i, p.value, env);
      }
    }
  }

  /** The corrected pick is a candidate of the highest rank, the first of that rank. */
  lemma {:induction false} PickCorrectedIsBest(es: seq<Entry>, env: Env)
    ensures PickCorrected(es, env).None? <==> forall i :: 0 <= i < |es| ==> Candidate(es[i], env).None?
    ensures PickCorrected(es, env).Some? ==> exists i :: FirstOfRank(es, i, PickCorrected(es, env).value, env)
    ensures forall j :: 0 <= j < |es| && Candidate(es[j], env).Some? ==>
      Rank(Candidate(es[j], env).value, env) <= Rank(PickCorrected(es, env).value, env)
  {
    PickCorrectedNone(es, env);
    PickCorrectedMax(es, env);
    PickCorrectedFirst(es, env);
  }

  // Two prebuilds under Electron 1: one for Electron with abi tag 1, one generic Node-API build.
  const ElectronEnv := Env("linux", "x64", "electron", "1", "glibc", "1", "")
  const ElectronName := "electron" + ['.'] + ("abi1" + ['.'] + "node")  // electron.abi1.node
  const NapiName := "node" + ['.'] + ("napi" + ['.'] + "node")          // node.napi.node
  const ElectronBuild := Entry(ElectronName, true, false)
  const NapiBuild := Entry(NapiName, true, false)

  lemma {:induction false} ClassifyAbi1(env: Env)
    ensures Classify("abi1", env) == AbiTag("1")
  {
    var tag := "abi1";
    assert tag[0] == 'a' && tag[1] == 'b' && tag[2] == 'i';
    assert "node"[0] == 'n' && "napi"[0] == 'n' && "musl"[0] == 'm' && "uv"[0] == 'u';
    assert tag[..2][0] == 'a' && tag[..3] == "abi" && tag[3..] == "1";
  }

  lemma {:induction false} ClassifyNapi(env: Env)
    ensures Classify("napi", env) == NapiTag
  {
    assert "napi"[1] == 'a' && "node"[1] == 'o';
  }

  lemma {:induction false} ElectronSplit()
    ensures Split(ElectronName, '.') == ["electron", "abi1", "node"]
  {
    SplitWithoutSep("node", '.');
    SplitAtFirst("abi1", '.', "node");
    SplitAtFirst("electron", '.', "abi1" + ['.'] + "node");
  }

  lemma {:induction false} NapiSplit()
    ensures Split(NapiName, '.') == ["node", "napi", "node"]
  {
    SplitWithoutSep("node", '.');
    SplitAtFirst("napi", '.', "node");
    SplitAtFirst("node", '.', "napi" + ['.'] + "node");
  }

  /** The record for a name with two recognised tags before ".node". */
  lemma {:induction false} TagsOfTwo(file: string, x: string, y: string, env: Env)
    requires Recognised(Classify(x, env)) && Recognised(Classify(y, env))
    ensures TagsOf(file, [x, y], env) == Some(Tags(file,
      |{KindOf(Classify(x, env)), KindOf(Classify(y, env))}|,
      if Classify(y, env).RuntimeTag? then Some(Classify(y, env).runtime)
      else if Classify(x, env).RuntimeTag? then Some(Classify(x, env).runtime) else None,
      Classify(x, env).NapiTag? || Classify(y, env).NapiTag?,
      if Classify(y, env).AbiTag? then Some(Classify(y, env).abi)
      else if Classify(x, env).AbiTag? then Some(Classify(x, env).abi) else None))
  {
    var a := [x, y];
    assert a[..1] == [x] && a[..1][..0] == [] && a[..1][0] == x && a[1] == y;
    assert a[..|a| - 1] == a[..1];
    assert Kinds(a[..1], env) == {KindOf(Classify(x, env))};
    assert Kinds(a, env) == {KindOf(Classify(x, env)), KindOf(Classify(y, env))};
    assert !Rejects(a[..1], env);
    assert !Classify(a[|a| - 1], env).Mismatch?;
    assert !Rejects(a, env);
    assert HasNapi(a[..1], env) == Classify(x, env).NapiTag?;
    assert LastRuntime(a[..1], env) == if Classify(x, env).RuntimeTag? then Some(Classify(x, env).runtime) else None;
    assert LastAbi(a[..1], env) == if Classify(x, env).AbiTag? then Some(Classify(x, env).abi) else None;
  }

  lemma {:induction false} ElectronTags()
    ensures TagsOf(ElectronName, ["electron", "abi1"], ElectronEnv)
      == Some(Tags(ElectronName, 2, Some("electron"), false, Some("1")))
  {
    assert Classify("electron", ElectronEnv) == RuntimeTag("electron");
    ClassifyAbi1(ElectronEnv);
    TagsOfTwo(ElectronName, "electron", "abi1", ElectronEnv);
    assert |{RuntimeKind, AbiKind}| == 2;
  }

  lemma {:induction false} NapiTags()
    ensures TagsOf(NapiName, ["node", "napi"], ElectronEnv) == Some(Tags(NapiName, 2, Some("node"), true, None))
  {
    assert Classify("node", ElectronEnv) == RuntimeTag("node");
    ClassifyNapi(ElectronEnv);
    TagsOfTwo(NapiName, "node", "napi", ElectronEnv);
    assert |{RuntimeKind, NapiKind}| == 2;
  }

  lemma {:induction false} ElectronCandidate()
    ensures Candidate(ElectronBuild, ElectronEnv) == Some(Tags(ElectronName, 2, Some("electron"), false, Some("1")))
  {
    ElectronSplit();
    ElectronTags();
    var arr: seq<string> := ["electron", "abi1", "node"];
    assert arr[..|arr| - 1] == ["electron", "abi1"] && arr[|arr| - 1] == "node";
  }

  lemma {:induction false} NapiCandidate()
    ensures Candidate(NapiBuild, ElectronEnv) == Some(Tags(NapiName, 2, Some("node"), true, None))
  {
    NapiSplit();
    NapiTags();
    var arr: seq<string> := ["node", "napi", "node"];
    assert arr[..|arr| - 1] == ["node", "napi"] && arr[|arr| - 1] == "node";
  }

  lemma {:induction false} PickOfTwo(a: Entry, b: Entry, env: Env)
    requires Candidate(a, env).Some? && Candidate(b, env).Some?
    ensures PickAsWritten([a, b], env) ==
      if Replaces(Candidate(a, env).value, Candidate(b, env).value, env) then Candidate(b, env) else Candidate(a, env)
    ensures PickCorrected([a, b], env) ==
      if Rank(Candidate(a, env).value, env) < Rank(Candidate(b, env).value, env) then Candidate(b, env) else Candidate(a, env)
  {
    var es := [a, b];
    assert es[..1] == [a] && es[..1][..0] == [] && es[1] == b && es[..1][0] == a;
    assert PickAsWritten(es[..1], env) == Candidate(a, env);
    assert PickCorrected(es[..1], env) == Candidate(a, env);
  }

  /**
    As written, the choice depends on the listing order: the generic build
    replaces the Electron build after it, but the Electron build also
    replaces the generic build after it.
  */
  lemma {:induction false} PickAsWrittenOrderDependent()
    ensures PickAsWritten([ElectronBuild, NapiBuild], ElectronEnv) == Candidate(NapiBuild, ElectronEnv)
    ensures PickAsWritten([NapiBuild, ElectronBuild], ElectronEnv) == Candidate(ElectronBuild, ElectronEnv)
    ensures Candidate(NapiBuild, ElectronEnv) != Candidate(ElectronBuild, ElectronEnv)
  {
    ElectronCandidate();
    NapiCandidate();
    PickOfTwo(ElectronBuild, NapiBuild, ElectronEnv);
    PickOfTwo(NapiBuild, ElectronBuild, ElectronEnv);
  }

  /** Ranked, the Electron build wins in either order. */
  lemma {:induction false} PickCorrectedOrderIndependent()
    ensures PickCorrected([ElectronBuild, NapiBuild], ElectronEnv) == Candidate(ElectronBuild, ElectronEnv)
    ensures PickCorrected([NapiBuild, ElectronBuild], ElectronEnv) == Candidate(ElectronBuild, ElectronEnv)
  {
    ElectronCandidate();
    NapiCandidate();
    PickOfTwo(ElectronBuild, NapiBuild, ElectronEnv);
    PickOfTwo(NapiBuild, ElectronBuild, ElectronEnv);
  }
}
