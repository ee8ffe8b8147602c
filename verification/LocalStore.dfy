/** The file-system deck store of internal/deckstore/local.go: Put as a sequence of file-system calls any
    of which may fail or be the last one before the process dies, Get, Delete, and List. */
module LocalStore {
  import opened Strings

  // ---------------------------------------------------------------- paths

  /** A cleaned absolute path, component by component. */
  type Path = seq<string>

  /** filepath.Join and its cleaning: where the components `cs` lead from `base`. */
  function Walk(base: Path, cs: seq<string>): Path
    decreases |cs|
  {
    if cs == [] then base
    else if cs[0] == "" || cs[0] == "." then Walk(base, cs[1..])
    else if cs[0] == ".." then Walk(if base == [] then [] else base[..|base| - 1], cs[1..])
    else Walk(base + [cs[0]], cs[1..])
  }

  function Dest(dir: Path, id: string): Path { Walk(dir, Split(id + ".json", '/')) }

  /** The directory and the name of the file an id is kept in. */
  function DestDir(dir: Path, id: string): Path { Walk(dir, Split(id, '/')[..|Split(id, '/')| - 1]) }

  function FileName(id: string): string { Split(id, '/')[|Split(id, '/')| - 1] + ".json" }

  /** `r` with `t` put behind its last piece. */
  function Extend(r: seq<string>, t: string): seq<string>
    requires r != []
  {
    r[..|r| - 1] + [r[|r| - 1] + t]
  }

  lemma ExtendBehindNew(r: seq<string>, t: string)
    requires r != []
    ensures Extend([""] + r, t) == [""] + Extend(r, t)
  {
    assert ([""] + r)[..|r|] == [""] + r[..|r| - 1];
  }

  lemma ExtendBehindLonger(c: char, r: seq<string>, t: string)
    requires r != []
    ensures Extend([[c] + r[0]] + r[1..], t) == [[c] + Extend(r, t)[0]] + Extend(r, t)[1..]
  {
    if |r| == 1 {
      assert [c] + (r[0] + t) == [c] + r[0] + t;
    }
  }

  lemma {:induction false} SplitAppend(s: string, t: string, sep: char)
    requires sep !in t
    ensures Split(s + t, sep) == Extend(Split(s, sep), t)
  {
    if s == "" {
      assert s + t == t + "";
      SplitPiece(t, "", sep);
    } else {
      assert (s + t)[1..] == s[1..] + t;
      SplitAppend(s[1..], t, sep);
      if s[0] == sep { ExtendBehindNew(Split(s[1..], sep), t); }
      else { ExtendBehindLonger(s[0], Split(s[1..], sep), t); }
    }
  }

  lemma {:induction false} WalkSnoc(base: Path, cs: seq<string>, c: string)
    requires c != "" && c != "." && c != ".."
    ensures Walk(base, cs + [c]) == Walk(base, cs) + [c]
    decreases |cs|
  {
    if cs != [] {
      assert (cs + [c])[1..] == cs[1..] + [c];
      var next := if cs[0] == "" || cs[0] == "." then base
        else if cs[0] == ".." then (if base == [] then [] else base[..|base| - 1]) else base + [cs[0]];
      WalkSnoc(next, cs[1..], c);
    }
  }

  lemma DestParts(dir: Path, id: string)
    ensures Dest(dir, id) == DestDir(dir, id) + [FileName(id)]
  {
    SplitAppend(id, ".json", '/');
    var r := Split(id, '/');
    WalkSnoc(dir, r[..|r| - 1], FileName(id));
  }

  /** Ids as the program makes them: no component that cleaning a path would take away. */
  predicate IsCleanId(id: string) {
    forall i :: 0 <= i < |Split(id, '/')| - 1 ==> Split(id, '/')[i] != "" && Split(id, '/')[i] != "." && Split(id, '/')[i] != ".."
  }

  lemma {:induction false} WalkClean(base: Path, cs: seq<string>)
    requires forall i :: 0 <= i < |cs| ==> cs[i] != "" && cs[i] != "." && cs[i] != ".."
    ensures Walk(base, cs) == base + cs
    decreases |cs|
  {
    if cs != [] {
      WalkClean(base + [cs[0]], cs[1..]);
      assert base + [cs[0]] + cs[1..] == base + cs;
    }
  }

  lemma {:induction false} JoinSplit(s: string, sep: char)
    ensures Join(Split(s, sep), sep) == s
  {
    if s != "" {
      JoinSplit(s[1..], sep);
      var r := Split(s[1..], sep);
      if s[0] == sep {
        assert ([""] + r)[1..] == r;
      } else if |r| > 1 {
        assert ([[s[0]] + r[0]] + r[1..])[1..] == r[1..];
      }
    }
  }

  lemma PrefixCancels<T>(p: seq<T>, a: seq<T>, b: seq<T>)
    requires p + a == p + b
    ensures a == b
  {
    assert a == (p + a)[|p|..] && b == (p + b)[|p|..];
  }

  lemma SuffixCancels<T>(a: seq<T>, b: seq<T>, s: seq<T>)
    requires a + s == b + s
    ensures a == b
  {
    assert |a| == |b|;
    assert a == (a + s)[..|a|] && b == (b + s)[..|b|];
  }

  lemma SnocCancels<T>(a: seq<T>, x: T, b: seq<T>, y: T)
    requires a + [x] == b + [y]
    ensures a == b && x == y
  {
    assert |a| == |b|;
    assert a == (a + [x])[..|a|] && b == (b + [y])[..|b|];
    assert x == (a + [x])[|a|] && y == (b + [y])[|b|];
  }

  lemma SplitInjective(a: string, b: string, sep: char)
    requires Split(a, sep) == Split(b, sep)
    ensures a == b
  {
    JoinSplit(a, sep);
    JoinSplit(b, sep);
  }

  /** The path of a clean id is its pieces behind the directory, the last one with the extension. */
  lemma CleanDest(dir: Path, id: string)
    requires IsCleanId(id)
    ensures var r := Split(id, '/'); Dest(dir, id) == dir + r[..|r| - 1] + [r[|r| - 1] + ".json"]
  {
    var r := Split(id, '/');
    DestParts(dir, id);
    WalkClean(dir, r[..|r| - 1]);
  }

  /** Clean ids are kept in different files. */
  lemma DestInjective(dir: Path, a: string, b: string)
    requires IsCleanId(a) && IsCleanId(b) && Dest(dir, a) == Dest(dir, b)
    ensures a == b
  {
    CleanDest(dir, a);
    CleanDest(dir, b);
    var x, y := Split(a, '/'), Split(b, '/');
    SnocCancels(dir + x[..|x| - 1], x[|x| - 1] + ".json", dir + y[..|y| - 1], y[|y| - 1] + ".json");
    PrefixCancels(dir, x[..|x| - 1], y[..|y| - 1]);
    SuffixCancels(x[|x| - 1], y[|y| - 1], ".json");
    assert x == x[..|x| - 1] + [x[|x| - 1]] && y == y[..|y| - 1] + [y[|y| - 1]];
    SplitInjective(a, b, '/');
  }

  /** A file whose name says it holds a deck. */
  predicate IsJson(p: Path) { p != [] && HasSuffix(p[|p| - 1], ".json") }

  lemma DestIsJson(dir: Path, id: string)
    ensures IsJson(Dest(dir, id)) && |Dest(dir, id)| > 0
  {
    DestParts(dir, id);
  }

  // ---------------------------------------------------------------- temp files

  function StripSlashes(s: string): string {
    if s != "" && s[|s| - 1] == '/' then StripSlashes(s[..|s| - 1]) else s
  }

  /** filepath.Base. */
  function Base(id: string): string {
    if id == "" then "." else
    var s := StripSlashes(id);
    if s == "" then "/" else Split(s, '/')[|Split(s, '/')| - 1]
  }

  lemma {:induction false} StripExact(s: string)
    ensures StripSlashes(s) <= s && (StripSlashes(s) == "" || StripSlashes(s)[|StripSlashes(s)| - 1] != '/')
    ensures forall i :: |StripSlashes(s)| <= i < |s| ==> s[i] == '/'
  {
    if s != "" && s[|s| - 1] == '/' { StripExact(s[..|s| - 1]); }
  }

  /** The last piece is what stands behind the last separator. */
  lemma {:induction false} LastPiece(s: string, sep: char) returns (p: string)
    ensures var last := Split(s, sep)[|Split(s, sep)| - 1];
      s == p + last && sep !in last && (p == "" || p[|p| - 1] == sep) && (|Split(s, sep)| == 1 ==> p == "")
  {
    p := "";
    if s != "" {
      var q := LastPiece(s[1..], sep);
      var r := Split(s[1..], sep);
      if s[0] == sep {
        p := [sep] + q;
        assert s == [sep] + (q + r[|r| - 1]);
      } else if |r| > 1 {
        assert q != "" by { if sep !in s[1..] { OnePiece(s[1..], sep); } }
        p := [s[0]] + q;
        assert s == [s[0]] + (q + r[|r| - 1]);
      } else {
        assert s == [s[0]] + r[0];
      }
    }
  }

  lemma OnePiece(s: string, sep: char)
    requires sep !in s
    ensures |Split(s, sep)| == 1
  {
    SplitPiece(s, "", sep);
    assert s + "" == s;
  }

  /** The name of an id without the folders before it and the slashes behind it; "." and "/" stand for nothing and for
      slashes only. */
  lemma BaseExact(id: string) returns (folders: string)
    ensures id == "" ==> Base(id) == "."
    ensures id != "" && (forall i :: 0 <= i < |id| ==> id[i] == '/') ==> Base(id) == "/"
    ensures (exists i :: 0 <= i < |id| && id[i] != '/') ==>
      && Base(id) != "" && '/' !in Base(id) && (folders == "" || folders[|folders| - 1] == '/')
      && folders + Base(id) <= id && forall i :: |folders + Base(id)| <= i < |id| ==> id[i] == '/'
  {
    StripExact(id);
    var s := StripSlashes(id);
    folders := LastPiece(s, '/');
  }

  /** The name os.CreateTemp makes of the pattern and a random part. */
  function TempName(id: string, random: string): string { Base(id) + "." + random + ".tmp" }

  function TempPath(dir: Path, id: string, random: string): Path { DestDir(dir, id) + [TempName(id, random)] }

  lemma LastDiffers(s: string, suffix: string)
    requires s != "" && suffix != "" && s[|s| - 1] != suffix[|suffix| - 1]
    ensures !HasSuffix(s, suffix)
  {
    if |suffix| <= |s| {
      assert s[|s| - |suffix|..][|suffix| - 1] == s[|s| - 1];
    }
  }

  /** A temp file is never taken for a deck. */
  lemma TempIsNotJson(dir: Path, id: string, random: string)
    ensures !IsJson(TempPath(dir, id, random))
  {
    LastDiffers(TempName(id, random), ".json");
  }

  // ---------------------------------------------------------------- the file system

  datatype Fs = Fs(files: map<Path, string>, dirs: set<Path>)

  /** os.MkdirAll can succeed: nothing on the way is a file. */
  predicate CanMkdir(fs: Fs, d: Path) { forall i :: 0 <= i <= |d| ==> d[..i] !in fs.files }

  function Mkdir(fs: Fs, d: Path): Fs { fs.(dirs := fs.dirs + set i | 0 <= i <= |d| :: d[..i]) }

  /** os.CreateTemp takes a name that is free, in a directory that exists, and no separator in it. */
  predicate CanCreate(fs: Fs, p: Path) {
    p != [] && p !in fs.files && p !in fs.dirs && p[..|p| - 1] in fs.dirs && '/' !in p[|p| - 1]
  }

  function Create(fs: Fs, p: Path): Fs { fs.(files := fs.files[p := ""]) }

  function Append(fs: Fs, p: Path, chunk: string): Fs
    requires p in fs.files
  {
    fs.(files := fs.files[p := fs.files[p] + chunk])
  }

  predicate CanRename(fs: Fs, q: Path) { q != [] && q !in fs.dirs && q[..|q| - 1] in fs.dirs }

  /** os.Rename replaces the target in one step. */
  function Rename(fs: Fs, p: Path, q: Path): Fs
    requires p in fs.files
  {
    fs.(files := (fs.files - {p})[q := fs.files[p]])
  }

  function Remove(fs: Fs, p: Path): Fs { fs.(files := fs.files - {p}) }

  /** A directory with nothing beneath it. */
  predicate EmptyDir(fs: Fs, p: Path) {
    p in fs.dirs && (forall q :: q in fs.files ==> !(p < q)) && (forall q :: q in fs.dirs ==> !(p < q))
  }

  /** os.Remove takes files and empty directories. */
  function Unlink(fs: Fs, p: Path): Fs {
    if p in fs.files then Remove(fs, p)
    else if EmptyDir(fs, p) then fs.(dirs := fs.dirs - {p})
    else fs
  }

  predicate FileOnTheWay(fs: Fs, p: Path) { exists i :: 0 <= i < |p| && p[..i] in fs.files }

  datatype Got = Data(data: string) | NotFound | ReadFailed

  /** os.ReadFile: a directory in the place of the file, or a file in the place of a directory, is an
      error other than "not exist". */
  function Read(fs: Fs, p: Path): Got {
    if p in fs.files then Data(fs.files[p])
    else if p in fs.dirs || FileOnTheWay(fs, p) then ReadFailed
    else NotFound
  }

  // ---------------------------------------------------------------- the store

  /** What becomes of a file-system call: it is made if it can be, it fails, or the process dies first. */
  datatype Fate = Made | Fails | Dies

  /** The fates of the calls of one Put; `part` bytes are written by a Write that does not complete. */
  datatype Plan = Plan(mkdir: Fate, create: Fate, write: Fate, part: nat, close: Fate, chmod: Fate, rename: Fate,
                       exit: Fate, remove: Fate)

  datatype PutResult = Stored | PutFailed | Died

  /** No call of a Put fails, and the process outlives it. */
  predicate AllMade(plan: Plan) { plan.mkdir == Made && plan.create == Made && FinishMade(plan) }

  /** From the write on; nothing but death can come between the rename and the return. */
  predicate FinishMade(plan: Plan) {
    plan.write == Made && plan.close == Made && plan.chmod == Made && plan.rename == Made && plan.exit != Dies
  }

  predicate NobodyDies(plan: Plan) {
    && plan.mkdir != Dies && plan.create != Dies && plan.write != Dies && plan.close != Dies && plan.chmod != Dies
    && plan.rename != Dies && plan.exit != Dies && plan.remove != Dies
  }

  /** What a Put needs of the file system it finds: nothing on the way to the directory is a file, nothing has the
      temp file's name, that name has no separator, and no directory has the deck file's name. */
  predicate Accepts(fs: Fs, dir: Path, id: string, random: string) {
    var d, temp := DestDir(dir, id), TempPath(dir, id, random);
    && (forall i :: 0 <= i <= |d| ==> d[..i] !in fs.files)
    && temp !in fs.files && temp !in fs.dirs && '/' !in TempName(id, random)
    && Dest(dir, id) !in fs.dirs
  }

  lemma MkdirLets(fs: Fs, dir: Path, id: string, random: string)
    requires CanMkdir(fs, DestDir(dir, id))
    ensures var after := Mkdir(fs, DestDir(dir, id));
      CanCreate(after, TempPath(dir, id, random)) && CanRename(after, Dest(dir, id)) <==> Accepts(fs, dir, id, random)
    ensures forall p :: p in Mkdir(fs, DestDir(dir, id)).dirs <==> p in fs.dirs || p <= DestDir(dir, id)
  {
    var d, temp, dest := DestDir(dir, id), TempPath(dir, id, random), Dest(dir, id);
    var after := Mkdir(fs, d);
    DestParts(dir, id);
    assert d[..|d|] == d && temp[..|temp| - 1] == d && dest[..|dest| - 1] == d;
    forall p ensures p in after.dirs <==> p in fs.dirs || p <= d {
      if p <= d { assert p == d[..|p|]; }
    }
  }

  /** All that has changed is a temp file, which holds the first part of `data`. */
  ghost predicate LeavesTemp(before: map<Path, string>, after: map<Path, string>, temp: Path, data: string) {
    temp in after && after[temp] <= data && after == before[temp := after[temp]]
  }

  datatype DirEntry = DirEntry(name: string, isDir: bool)

  /** os.ReadDir of `dir`: each file and directory in it once. */
  ghost predicate Shows(entries: seq<DirEntry>, fs: Fs, dir: Path) {
    && (forall name :: DirEntry(name, false) in entries <==> dir + [name] in fs.files)
    && NamedOnce(entries)
  }

  /** filepath.Ext of a name without separators. */
  function Ext(name: string): string {
    if name == "" then "" else
    var last := name[|name| - 1];
    if last == '.' then "." else
    var e := Ext(name[..|name| - 1]);
    if e == "" then "" else e + [last]
  }

  lemma SuffixSnoc(name: string, suffix: string)
    requires name != "" && suffix != ""
    ensures HasSuffix(name, suffix) <==>
      HasSuffix(name[..|name| - 1], suffix[..|suffix| - 1]) && name[|name| - 1] == suffix[|suffix| - 1]
  {
    var n, e := name[..|name| - 1], suffix[..|suffix| - 1];
    assert suffix == e + [suffix[|suffix| - 1]];
    if |suffix| <= |name| {
      assert name[|name| - |suffix|..] == n[|n| - |e|..] + [name[|name| - 1]];
      if HasSuffix(name, suffix) {
        SnocCancels(n[|n| - |e|..], name[|name| - 1], e, suffix[|suffix| - 1]);
      }
    }
  }

  lemma {:induction false} ExtExact(name: string, ext: string)
    requires ext != "" && ext[0] == '.' && forall i :: 1 <= i < |ext| ==> ext[i] != '.'
    ensures Ext(name) == ext <==> HasSuffix(name, ext)
    decreases |ext|
  {
    if name != "" {
      SuffixSnoc(name, ext);
      var e := ext[..|ext| - 1];
      if |ext| == 1 {
        assert ext == ".";
      } else {
        ExtExact(name[..|name| - 1], e);
        assert ext == e + [ext[|ext| - 1]];
        if Ext(name) == ext {
          SnocCancels(Ext(name[..|name| - 1]), name[|name| - 1], e, ext[|ext| - 1]);
        }
      }
    }
  }

  /** The ids List gives for a directory, in its order. */
  function Ids(entries: seq<DirEntry>): seq<string> {
    if entries == [] then [] else
    var e := entries[|entries| - 1];
    Ids(entries[..|entries| - 1])
      + if !e.isDir && Ext(e.name) == ".json" && |e.name| >= 5 then [e.name[..|e.name| - 5]] else []
  }

  lemma JsonName(name: string, id: string)
    ensures name == id + ".json" <==> HasSuffix(name, ".json") && name[..|name| - 5] == id
  {
    if name == id + ".json" {
      assert name[|name| - 5..] == ".json" && name[..|name| - 5] == id;
    } else if HasSuffix(name, ".json") {
      assert name == name[..|name| - 5] + name[|name| - 5..];
    }
  }

  lemma {:induction false} IdsExact(entries: seq<DirEntry>, id: string)
    ensures id in Ids(entries) <==> DirEntry(id + ".json", false) in entries
  {
    if entries != [] {
      var n := |entries| - 1;
      var e := entries[n];
      assert entries == entries[..n] + [e];
      IdsExact(entries[..n], id);
      ExtExact(e.name, ".json");
      JsonName(e.name, id);
    }
  }

  predicate Distinct(ss: seq<string>) { forall i, j :: 0 <= i < j < |ss| ==> ss[i] != ss[j] }

  lemma DistinctSnoc(ss: seq<string>, s: string)
    requires Distinct(ss) && s !in ss
    ensures Distinct(ss + [s])
  {
  }

  ghost predicate NamedOnce(entries: seq<DirEntry>) {
    forall i, j :: 0 <= i < j < |entries| ==> entries[i].name != entries[j].name
  }

  lemma {:induction false} IdsDistinct(entries: seq<DirEntry>)
    requires NamedOnce(entries)
    ensures Distinct(Ids(entries))
  {
    if entries != [] {
      var n := |entries| - 1;
      var name := entries[n].name;
      IdsDistinct(entries[..n]);
      ExtExact(name, ".json");
      if Ext(name) == ".json" {
        var id := name[..|name| - 5];
        JsonName(name, id);
        IdsExact(entries[..n], id);
        assert DirEntry(name, false) !in entries[..n];
        DistinctSnoc(Ids(entries[..n]), id);
      }
    }
  }

  class Store {
    const dir: Path
    var fs: Fs

    constructor (dir: Path, fs: Fs)
      ensures this.dir == dir && this.fs == fs
    {
      this.dir, this.fs := dir, fs;
    }

    /** Whatever happens on the way, the file of `id` is left as it was or holds all of `data`, it holds
        `data` when Put reports success and is as it was when Put reports failure, no other deck file
        changes, and a failure that can still clean up leaves no file behind. */
    method Put(id: string, data: string, random: string, plan: Plan) returns (r: PutResult)
      modifies this
      ensures forall p :: IsJson(p) && p != Dest(dir, id) ==>
        (p in fs.files <==> p in old(fs.files)) && (p in fs.files ==> fs.files[p] == old(fs.files)[p])
      ensures r == Stored ==> fs.files == old(fs.files)[Dest(dir, id) := data]
      ensures r == PutFailed && plan.remove == Made ==> fs.files == old(fs.files)
      ensures r == Died || r == PutFailed ==>
        || fs.files == old(fs.files)
        || LeavesTemp(old(fs.files), fs.files, TempPath(dir, id, random), data)
        || (r == Died && fs.files == old(fs.files)[Dest(dir, id) := data])
      ensures r == Stored <==> AllMade(plan) && Accepts(old(fs), dir, id, random)
      ensures r == Stored ==> Read(fs, Dest(dir, id)) == Data(data)
      ensures r == Stored ==> forall p :: p in fs.dirs <==> p in old(fs).dirs || p <= DestDir(dir, id)
      ensures NobodyDies(plan) ==> r != Died
    {
      DestIsJson(dir, id);
      TempIsNotJson(dir, id, random);
      if plan.mkdir == Dies { return Died; }
      if plan.mkdir == Fails || !CanMkdir(fs, DestDir(dir, id)) { return PutFailed; }
      MkdirLets(fs, dir, id, random);
      fs := Mkdir(fs, DestDir(dir, id));
      var temp := TempPath(dir, id, random);
      if plan.create == Dies { return Died; }
      if plan.create == Fails || !CanCreate(fs, temp) { return PutFailed; }
      r := WriteAndRename(temp, Dest(dir, id), data, plan);
    }

    /** From the new temp file on. */
    method WriteAndRename(temp: Path, dest: Path, data: string, plan: Plan) returns (r: PutResult)
      requires temp !in fs.files && temp != dest
      modifies this
      ensures r == Stored ==> fs.files == old(fs.files)[dest := data]
      ensures r == PutFailed && plan.remove == Made ==> fs.files == old(fs.files)
      ensures r == PutFailed && plan.remove != Made ==> LeavesTemp(old(fs.files), fs.files, temp, data)
      ensures r == Died ==> LeavesTemp(old(fs.files), fs.files, temp, data) || fs.files == old(fs.files)[dest := data]
      ensures r == Stored <==> FinishMade(plan) && CanRename(old(fs), dest)
      ensures fs.dirs == old(fs.dirs) && (NobodyDies(plan) ==> r != Died)
    {
      ghost var before := fs.files;
      fs := Create(fs, temp);
      if plan.write != Made {
        var part := if plan.part <= |data| then data[..plan.part] else data;
        fs := Append(fs, temp, part);
        assert "" + part == part;
        assert fs.files == before[temp := part];
        if plan.write == Dies { return Died; }
        r := CleanUp(temp, plan, before);
        return;
      }
      fs := Append(fs, temp, data);
      assert "" + data == data;
      assert fs.files == before[temp := data];
      if plan.close == Dies { return Died; }
      if plan.close == Fails { r := CleanUp(temp, plan, before); return; }
      if plan.chmod == Dies { return Died; }
      if plan.chmod == Fails { r := CleanUp(temp, plan, before); return; }
      if plan.rename == Dies { return Died; }
      if plan.rename == Fails || !CanRename(fs, dest) { r := CleanUp(temp, plan, before); return; }
      fs := Rename(fs, temp, dest);
      assert fs.files == before[dest := data];
      if plan.exit == Dies { return Died; }
      return Stored;
    }

    /** The best-effort removal of the temp file. */
    method CleanUp(temp: Path, plan: Plan, ghost before: map<Path, string>) returns (r: PutResult)
      requires temp in fs.files && temp !in before && fs.files == before[temp := fs.files[temp]]
      modifies this
      ensures r == if plan.remove == Dies then Died else PutFailed
      ensures fs.dirs == old(fs.dirs)
      ensures fs.files == if plan.remove == Made then before else old(fs.files)
    {
      if plan.remove == Dies { return Died; }
      if plan.remove == Made {
        fs := Remove(fs, temp);
        assert fs.files == before;
      }
      return PutFailed;
    }

    /** The data of the file; an error other than "not found" when the name or part of the way to it is taken by
        something else; and "not found" otherwise. */
    method Get(id: string) returns (r: Got)
      ensures r.Data? <==> Dest(dir, id) in fs.files
      ensures r.Data? ==> r.data == fs.files[Dest(dir, id)]
      ensures r.NotFound? <==>
        Dest(dir, id) !in fs.files && Dest(dir, id) !in fs.dirs && !FileOnTheWay(fs, Dest(dir, id))
    {
      r := Read(fs, Dest(dir, id));
    }

    /** Deleting what is not there is no error; an empty directory in the place of the file goes too. */
    method Delete(id: string, fate: Fate) returns (ok: bool)
      modifies this
      ensures fs == if ok then Unlink(old(fs), Dest(dir, id)) else old(fs)
      ensures ok ==> Dest(dir, id) !in fs.files && fs.files == old(fs.files) - {Dest(dir, id)}
      ensures ok && Dest(dir, id) !in old(fs.files) ==> Dest(dir, id) !in fs.dirs
      ensures fs.dirs == old(fs.dirs) || (EmptyDir(old(fs), Dest(dir, id)) && fs.dirs == old(fs.dirs) - {Dest(dir, id)})
      ensures ok <==> fate == Made && (Read(old(fs), Dest(dir, id)) != ReadFailed || EmptyDir(old(fs), Dest(dir, id)))
    {
      var dest := Dest(dir, id);
      if fate != Made { return false; }
      match Read(fs, dest)
      case NotFound => return true;
      case ReadFailed =>
        if !EmptyDir(fs, dest) { return false; }
        fs := Unlink(fs, dest);
        return true;
      case Data(_) =>
        fs := Unlink(fs, dest);
        return true;
    }

    /** The ids whose file lies in the directory itself, each once: no temp file and no directory. */
    method List(entries: seq<DirEntry>) returns (ids: seq<string>)
      requires Shows(entries, fs, dir)
      ensures forall id :: id in ids <==> dir + [id + ".json"] in fs.files
      ensures Distinct(ids)
    {
      ids := [];
      for k := 0 to |entries|
        invariant ids == Ids(entries[..k])
      {
        assert entries[..k + 1][..k] == entries[..k];
        if entries[k].isDir { continue; }
        var name := entries[k].name;
        ExtExact(name, ".json");
        if Ext(name) == ".json" { ids := ids + [name[..|name| - 5]]; }
      }
      assert entries[..|entries|] == entries;
      IdsDistinct(entries);
      forall id ensures id in ids <==> dir + [id + ".json"] in fs.files { IdsExact(entries, id); }
    }
  }
}
