/** Any number of Puts on the file-system store at once, with deletions, failures and process deaths in
    between. Each event is one file-system call; the deck files behave like one plain map. */
module LocalRuns {
  import opened Strings
  import opened LocalStore
  import Runs

  datatype Phase = Prepared | Open | Closed | Readable

  /** A Put under way: what it stores, its temp file once there is one, and how much is written. */
  datatype Job = Job(id: string, data: string, temp: Path, written: nat, phase: Phase)

  /** The file system, the Puts under way, and the map of stored decks the callers have in mind. */
  datatype World = World(fs: Fs, jobs: map<nat, Job>, contents: map<Path, string>, begun: set<(Path, string)>)

  datatype Event =
    | Begins(job: nat, id: string, data: string)
    | Opens(job: nat, random: string)
    | Writes(job: nat, n: nat)
    | Closes(job: nat)
    | Chmods(job: nat)
    | Renames(job: nat, id: string, data: string)
    | GivesUp(job: nat, removes: bool)
    | Dies
    | Deletes(id: string)

  /** Where a store keeps its files, and which of them it takes for decks. */
  datatype Site = Site(dest: string -> Path, folder: string -> Path, temp: (string, string) -> Path, deck: Path -> bool)

  function SiteOf(dir: Path): Site {
    Site((id: string) => Dest(dir, id), (id: string) => DestDir(dir, id),
         (id: string, random: string) => TempPath(dir, id, random), (p: Path) => IsJson(p))
  }

  /** Decks have deck names, temp files have not. */
  ghost predicate Sound(site: Site) {
    && (forall id :: site.deck(site.dest(id)))
    && (forall id, random :: !site.deck(site.temp(id, random)))
  }

  lemma SiteIsSound(dir: Path)
    ensures Sound(SiteOf(dir))
  {
    var site := SiteOf(dir);
    forall id ensures site.deck(site.dest(id)) { DestIsJson(dir, id); }
    forall id, random ensures !site.deck(site.temp(id, random)) { TempIsNotJson(dir, id, random); }
  }

  ghost predicate Enabled(site: Site, s: World, e: Event) {
    match e
    case Begins(j, id, _) => j !in s.jobs && CanMkdir(s.fs, site.folder(id))
    case Opens(j, random) =>
      j in s.jobs && s.jobs[j].phase == Prepared && CanCreate(s.fs, site.temp(s.jobs[j].id, random))
    case Writes(j, n) => j in s.jobs && s.jobs[j].phase == Open && s.jobs[j].written + n <= |s.jobs[j].data|
    case Closes(j) => j in s.jobs && s.jobs[j].phase == Open && s.jobs[j].written == |s.jobs[j].data|
    case Chmods(j) => j in s.jobs && s.jobs[j].phase == Closed
    case Renames(j, id, data) =>
      && j in s.jobs && s.jobs[j].phase == Readable && s.jobs[j].id == id && s.jobs[j].data == data
      && CanRename(s.fs, site.dest(id))
    case GivesUp(j, _) => j in s.jobs
    case Dies => true
    case Deletes(_) => true
  }

  /** The calls themselves. A call on a temp file that has gone would do nothing; `Inv` says none ever has. */
  ghost function Step(site: Site, s: World, e: Event): World {
    match e
    case Begins(j, id, data) =>
      s.(fs := Mkdir(s.fs, site.folder(id)), jobs := s.jobs[j := Job(id, data, [], 0, Prepared)],
         begun := s.begun + {(site.dest(id), data)})
    case Opens(j, random) => if j !in s.jobs then s else
      var temp := site.temp(s.jobs[j].id, random);
      s.(fs := Create(s.fs, temp), jobs := s.jobs[j := s.jobs[j].(temp := temp, phase := Open)])
    case Writes(j, n) =>
      if j !in s.jobs || s.jobs[j].temp !in s.fs.files || s.jobs[j].written + n > |s.jobs[j].data| then s else
      var w := s.jobs[j].written;
      s.(fs := Append(s.fs, s.jobs[j].temp, s.jobs[j].data[w..w + n]), jobs := s.jobs[j := s.jobs[j].(written := w + n)])
    case Closes(j) => if j !in s.jobs then s else s.(jobs := s.jobs[j := s.jobs[j].(phase := Closed)])
    case Chmods(j) => if j !in s.jobs then s else s.(jobs := s.jobs[j := s.jobs[j].(phase := Readable)])
    case Renames(j, id, data) => if j !in s.jobs || s.jobs[j].temp !in s.fs.files then s else
      s.(fs := Rename(s.fs, s.jobs[j].temp, site.dest(id)), jobs := s.jobs - {j},
         contents := s.contents[site.dest(id) := data])
    case GivesUp(j, removes) => if j !in s.jobs then s else
      s.(fs := if removes && s.jobs[j].phase != Prepared then Remove(s.fs, s.jobs[j].temp) else s.fs, jobs := s.jobs - {j})
    case Dies => s.(jobs := map[])
    case Deletes(id) => s.(fs := Unlink(s.fs, site.dest(id)), contents := s.contents - {site.dest(id)})
  }

  // ---------------------------------------------------------------- the invariant

  function At(m: map<Path, string>, p: Path): Got { if p in m then Data(m[p]) else NotFound }

  /** The deck files are the map. */
  ghost predicate Faithful(site: Site, s: World) { forall p :: site.deck(p) ==> At(s.fs.files, p) == At(s.contents, p) }

  /** What a Put under way relies on: its temp file is there, is no deck file, and holds what it wrote. */
  ghost predicate JobHolds(site: Site, fs: Fs, job: Job) {
    job.phase != Prepared ==>
      && job.temp in fs.files && !site.deck(job.temp)
      && job.written <= |job.data| && fs.files[job.temp] == job.data[..job.written]
      && (job.phase != Open ==> job.written == |job.data|)
  }

  ghost predicate JobsHold(site: Site, s: World) { forall j :: j in s.jobs ==> JobHolds(site, s.fs, s.jobs[j]) }

  /** No temp file is shared. */
  ghost predicate TempsApart(s: World) {
    forall i, j :: i in s.jobs && j in s.jobs && i != j && s.jobs[i].phase != Prepared && s.jobs[j].phase != Prepared
      ==> s.jobs[i].temp != s.jobs[j].temp
  }

  /** Every stored deck is one that some Put was given, whole. */
  ghost predicate Given(site: Site, s: World) {
    && (forall p :: p in s.contents ==> (p, s.contents[p]) in s.begun)
    && (forall j :: j in s.jobs ==> (site.dest(s.jobs[j].id), s.jobs[j].data) in s.begun)
    && (forall j :: j in s.jobs && s.jobs[j].phase == Prepared ==> s.jobs[j].written == 0)
  }

  ghost predicate Inv(site: Site, s: World) { Faithful(site, s) && JobsHold(site, s) && TempsApart(s) && Given(site, s) }

  /** Before the first Put: whatever deck files there are make up the map. */
  ghost predicate Initial(site: Site, s: World) {
    && s.jobs == map[] && Faithful(site, s)
    && forall p :: p in s.contents ==> (p, s.contents[p]) in s.begun
  }

  lemma StepKeepsFaithful(site: Site, s: World, e: Event)
    requires Sound(site) && Inv(site, s) && Enabled(site, s, e)
    ensures Faithful(site, Step(site, s, e))
  {
    match e
    case Renames(j, id, data) => RenameKeepsFaithful(site, s, j, id, data);
    case GivesUp(j, removes) => assert JobHolds(site, s.fs, s.jobs[j]);
    case Writes(j, n) => assert JobHolds(site, s.fs, s.jobs[j]);
    case _ =>
  }

  lemma RenameKeepsFaithful(site: Site, s: World, j: nat, id: string, data: string)
    requires Sound(site) && Inv(site, s) && Enabled(site, s, Renames(j, id, data))
    ensures Faithful(site, Step(site, s, Renames(j, id, data)))
  {
    var temp := s.jobs[j].temp;
    assert JobHolds(site, s.fs, s.jobs[j]);
    assert data[..|data|] == data;
    assert s.fs.files[temp] == data && !site.deck(temp);
  }

  lemma OwnCallKeepsJob(site: Site, s: World, e: Event, j: nat)
    requires Sound(site) && Inv(site, s) && Enabled(site, s, e) && j in Step(site, s, e).jobs && CallOf(e, j)
    ensures JobHolds(site, Step(site, s, e).fs, Step(site, s, e).jobs[j])
  {
    assert j in s.jobs ==> JobHolds(site, s.fs, s.jobs[j]);
    match e
    case Writes(_, n) =>
      var w, d := s.jobs[j].written, s.jobs[j].data;
      assert d[..w] + d[w..w + n] == d[..w + n];
    case _ =>
  }

  /** The event is a call that Put `j` makes. */
  predicate CallOf(e: Event, j: nat) { !e.Dies? && !e.Deletes? && e.job == j }

  lemma OtherCallKeepsJob(site: Site, s: World, e: Event, j: nat)
    requires Sound(site) && Inv(site, s) && Enabled(site, s, e) && j in Step(site, s, e).jobs && !CallOf(e, j)
    ensures JobHolds(site, Step(site, s, e).fs, Step(site, s, e).jobs[j])
  {
    assert j in s.jobs && JobHolds(site, s.fs, s.jobs[j]) && Step(site, s, e).jobs[j] == s.jobs[j];
    match e
    case Writes(k, _) => assert JobHolds(site, s.fs, s.jobs[k]);
    case Renames(k, _, _) => assert JobHolds(site, s.fs, s.jobs[k]);
    case GivesUp(k, _) => assert JobHolds(site, s.fs, s.jobs[k]);
    case _ =>
  }

  lemma StepKeepsJobs(site: Site, s: World, e: Event)
    requires Sound(site) && Inv(site, s) && Enabled(site, s, e)
    ensures JobsHold(site, Step(site, s, e))
  {
    forall j | j in Step(site, s, e).jobs ensures JobHolds(site, Step(site, s, e).fs, Step(site, s, e).jobs[j]) {
      if CallOf(e, j) { OwnCallKeepsJob(site, s, e, j); } else { OtherCallKeepsJob(site, s, e, j); }
    }
  }

  lemma StepKeepsTempsApart(site: Site, s: World, e: Event)
    requires Sound(site) && Inv(site, s) && Enabled(site, s, e)
    ensures TempsApart(Step(site, s, e))
  {
    match e
    case Opens(j, random) =>
      assert forall k :: k in s.jobs ==> JobHolds(site, s.fs, s.jobs[k]);
    case _ =>
  }

  lemma StepKeepsGiven(site: Site, s: World, e: Event)
    requires Sound(site) && Inv(site, s) && Enabled(site, s, e)
    ensures Given(site, Step(site, s, e))
  {
    match e
    case Renames(j, id, data) => assert (site.dest(s.jobs[j].id), s.jobs[j].data) in s.begun;
    case _ =>
  }

  lemma StepKeepsInv(site: Site, s: World, e: Event)
    requires Sound(site) && Inv(site, s) && Enabled(site, s, e)
    ensures Inv(site, Step(site, s, e))
  {
    StepKeepsFaithful(site, s, e);
    StepKeepsJobs(site, s, e);
    StepKeepsTempsApart(site, s, e);
    StepKeepsGiven(site, s, e);
  }

  // ---------------------------------------------------------------- whole runs

  ghost predicate Legal(site: Site, s: World, es: seq<Event>) {
    Runs.Legal((s, e) => Enabled(site, s, e), (s, e) => Step(site, s, e), s, es)
  }

  ghost function After(site: Site, s: World, es: seq<Event>): World {
    Runs.After((s, e) => Step(site, s, e), s, es)
  }

  lemma ReachableInv(site: Site, s: World, es: seq<Event>)
    requires Sound(site) && Initial(site, s) && Legal(site, s, es)
    ensures Inv(site, After(site, s, es))
  {
    forall s, e | Inv(site, s) && Enabled(site, s, e) ensures Inv(site, Step(site, s, e)) {
      StepKeepsInv(site, s, e);
    }
    Runs.Keeps(s => Inv(site, s), (s, e) => Enabled(site, s, e), (s, e) => Step(site, s, e), s, es);
  }

  /** What `p` holds after the events `es`: the data of the last rename onto it, nothing after the last
      deletion, and otherwise what it held before. No other event has a say. */
  function LastStored(site: Site, before: Got, es: seq<Event>, p: Path): Got
    decreases |es|
  {
    if es == [] then before else
    var now := match es[0]
      case Renames(_, id, data) => if site.dest(id) == p then Data(data) else before
      case Deletes(id) => if site.dest(id) == p then NotFound else before
      case _ => before;
    LastStored(site, now, es[1..], p)
  }

  lemma StepStores(site: Site, s: World, e: Event, p: Path)
    requires Sound(site) && Inv(site, s) && Enabled(site, s, e)
    ensures At(Step(site, s, e).contents, p) == LastStored(site, At(s.contents, p), [e], p)
  {
    match e
    case Renames(j, id, data) => assert JobHolds(site, s.fs, s.jobs[j]);
    case _ =>
  }

  lemma {:induction false} ContentsAreLastStored(site: Site, s: World, es: seq<Event>, p: Path)
    requires Sound(site) && Inv(site, s) && Legal(site, s, es)
    ensures At(After(site, s, es).contents, p) == LastStored(site, At(s.contents, p), es, p)
    decreases |es|
  {
    if es != [] {
      StepKeepsInv(site, s, es[0]);
      StepStores(site, s, es[0], p);
      ContentsAreLastStored(site, Step(site, s, es[0]), es[1..], p);
    }
  }

  lemma {:induction false} NoDataBefore(site: Site, before: Got, es: seq<Event>, p: Path)
    requires !before.Data?
    ensures LastStored(site, before, es, p).Data? <==> LastStored(site, NotFound, es, p).Data?
    ensures LastStored(site, before, es, p).Data? ==> LastStored(site, before, es, p) == LastStored(site, NotFound, es, p)
    decreases |es|
  {
    if es != [] {
      match es[0]
      case Renames(_, id, data) => if site.dest(id) != p { NoDataBefore(site, before, es[1..], p); }
      case Deletes(id) => if site.dest(id) != p { NoDataBefore(site, before, es[1..], p); }
      case _ => NoDataBefore(site, before, es[1..], p);
    }
  }

  /** However Puts, deletions, failures and deaths interleave, Get gives the data of the last Put whose
      rename was reached, in whole, and none of the half-written data of any other; it finds nothing when
      there is none or a deletion came later. */
  lemma GetReturnsLastStored(dir: Path, s: World, es: seq<Event>, id: string)
    requires Initial(SiteOf(dir), s) && Legal(SiteOf(dir), s, es)
    ensures var got := Read(After(SiteOf(dir), s, es).fs, Dest(dir, id));
      var last := LastStored(SiteOf(dir), Read(s.fs, Dest(dir, id)), es, Dest(dir, id));
      && (got.Data? <==> last.Data?)
      && (got.Data? ==> got == last && (Dest(dir, id), got.data) in After(SiteOf(dir), s, es).begun)
  {
    var site, p := SiteOf(dir), Dest(dir, id);
    SiteIsSound(dir);
    assert site.deck(site.dest(id));
    ReachableInv(site, s, es);
    ContentsAreLastStored(site, s, es, p);
    assert At(s.fs.files, p) == At(s.contents, p);
    var before := Read(s.fs, p);
    if !before.Data? { NoDataBefore(site, before, es, p); }
    assert At(After(site, s, es).fs.files, p) == At(After(site, s, es).contents, p);
  }

  /** Some run of the calls of Put `j` alone ends with these files and no trace of the Put otherwise. */
  ghost predicate CanEnd(site: Site, s: World, j: nat, files: map<Path, string>) {
    exists es :: Legal(site, s, es) && After(site, s, es).fs.files == files && After(site, s, es).jobs == s.jobs - {j}
  }

  lemma Onward(site: Site, s: World, e: Event, j: nat, files: map<Path, string>)
    requires Enabled(site, s, e) && CanEnd(site, Step(site, s, e), j, files)
    requires Step(site, s, e).jobs - {j} == s.jobs - {j}
    ensures CanEnd(site, s, j, files)
  {
    var t := Step(site, s, e);
    var es :| Legal(site, t, es) && After(site, t, es).fs.files == files && After(site, t, es).jobs == t.jobs - {j};
    assert ([e] + es)[1..] == es;
    assert Legal(site, s, [e] + es) && After(site, s, [e] + es) == After(site, t, es);
  }

  ghost predicate HasJob(s: World, j: nat, job: Job) { j in s.jobs && s.jobs[j] == job }

  lemma WrittenCanEnd(site: Site, s: World, j: nat, job: Job)
    requires HasJob(s, j, job) && job.phase == Open && job.written == |job.data|
    requires job.temp in s.fs.files && s.fs.files[job.temp] == job.data && CanRename(s.fs, site.dest(job.id))
    ensures CanEnd(site, s, j, (s.fs.files - {job.temp})[site.dest(job.id) := job.data])
  {
    var files := (s.fs.files - {job.temp})[site.dest(job.id) := job.data];
    var s1 := Step(site, s, Closes(j));
    var s2 := Step(site, s1, Chmods(j));
    assert HasJob(s2, j, job.(phase := Readable)) && s2.fs == s.fs;
    var s3 := Step(site, s2, Renames(j, job.id, job.data));
    assert Legal(site, s3, []) && After(site, s3, []) == s3 && s3.jobs - {j} == s3.jobs;
    assert CanEnd(site, s3, j, files);
    Onward(site, s2, Renames(j, job.id, job.data), j, files);
    Onward(site, s1, Chmods(j), j, files);
    Onward(site, s, Closes(j), j, files);
  }

  lemma OpenCanEnd(site: Site, s: World, j: nat, job: Job)
    requires HasJob(s, j, job) && job.phase == Open && job.written == 0
    requires job.temp in s.fs.files && s.fs.files[job.temp] == "" && CanRename(s.fs, site.dest(job.id))
    ensures CanEnd(site, s, j, (s.fs.files - {job.temp})[site.dest(job.id) := job.data])
  {
    var t := Step(site, s, Writes(j, |job.data|));
    assert job.data[0..|job.data|] == job.data && "" + job.data == job.data;
    WrittenCanEnd(site, t, j, job.(written := |job.data|));
    assert t.fs.files - {job.temp} == s.fs.files - {job.temp};
    Onward(site, s, Writes(j, |job.data|), j, (s.fs.files - {job.temp})[site.dest(job.id) := job.data]);
  }

  /** In any state and whatever else is under way, the calls of a whole Put can be made wherever Store.Put accepts
      them, and then the deck file holds the data and no other file has changed. */
  lemma PutCanEnd(dir: Path, s: World, j: nat, id: string, data: string, random: string)
    requires j !in s.jobs && Accepts(s.fs, dir, id, random)
    ensures CanEnd(SiteOf(dir), s, j, s.fs.files[Dest(dir, id) := data])
  {
    var site, temp := SiteOf(dir), TempPath(dir, id, random);
    var files := s.fs.files[Dest(dir, id) := data];
    MkdirLets(s.fs, dir, id, random);
    DestIsJson(dir, id);
    TempIsNotJson(dir, id, random);
    var s1 := Step(site, s, Begins(j, id, data));
    var s2 := Step(site, s1, Opens(j, random));
    OpenCanEnd(site, s2, j, Job(id, data, temp, 0, Open));
    assert (s2.fs.files - {temp})[Dest(dir, id) := data] == files;
    Onward(site, s1, Opens(j, random), j, files);
    Onward(site, s, Begins(j, id, data), j, files);
  }

  /** A directory listing shows a clean id exactly when it has no folder part, whatever folder-like
      prefixes the store also holds. */
  lemma ListedExactly(dir: Path, id: string, name: string)
    requires IsCleanId(id)
    ensures dir + [name + ".json"] == Dest(dir, id) <==> '/' !in id && name == id
  {
    DestParts(dir, id);
    var r := Split(id, '/');
    WalkClean(dir, r[..|r| - 1]);
    JoinSplit(id, '/');
    if '/' !in id {
      SplitPiece(id, "", '/');
      assert id + "" == id && r == [id];
      assert Dest(dir, id) == dir + [id + ".json"];
      if name + ".json" == id + ".json" { SuffixCancels(name, id, ".json"); }
      if dir + [name + ".json"] == Dest(dir, id) { SnocCancels(dir, name + ".json", dir, id + ".json"); }
    } else {
      PiecesOfSlashed(id);
      assert |Dest(dir, id)| == |dir| + |r|;
    }
  }

  lemma {:induction false} PiecesOfSlashed(id: string)
    requires '/' in id
    ensures |Split(id, '/')| > 1
  {
    if id[0] != '/' { PiecesOfSlashed(id[1..]); }
  }

  /** After any run List shows exactly the ids without folder part that the map holds, each once: never a
      temp file, not even one that a death left behind. `entries` is what the directory then shows. */
  lemma ListShowsTheMap(dir: Path, s: World, es: seq<Event>, entries: seq<DirEntry>, id: string)
    requires Initial(SiteOf(dir), s) && Legal(SiteOf(dir), s, es)
    requires Shows(entries, After(SiteOf(dir), s, es).fs, dir)
    ensures id in Ids(entries) <==> dir + [id + ".json"] in After(SiteOf(dir), s, es).contents
    ensures Distinct(Ids(entries))
  {
    var site := SiteOf(dir);
    SiteIsSound(dir);
    ReachableInv(site, s, es);
    var p := dir + [id + ".json"];
    JsonName(id + ".json", id);
    assert site.deck(p);
    assert At(After(site, s, es).fs.files, p) == At(After(site, s, es).contents, p);
    IdsExact(entries, id);
    IdsDistinct(entries);
  }

  /** A temp file that a Put has open is in no listing. */
  lemma TempsUnlisted(dir: Path, s: World, es: seq<Event>, entries: seq<DirEntry>, j: nat, name: string)
    requires Initial(SiteOf(dir), s) && Legal(SiteOf(dir), s, es)
    requires var t := After(SiteOf(dir), s, es);
      Shows(entries, t.fs, dir) && j in t.jobs && t.jobs[j].phase != Prepared && t.jobs[j].temp == dir + [name]
    ensures DirEntry(name, false) in entries && forall id :: id in Ids(entries) ==> id + ".json" != name
  {
    var site := SiteOf(dir);
    SiteIsSound(dir);
    ReachableInv(site, s, es);
    var t := After(site, s, es);
    assert JobHolds(site, t.fs, t.jobs[j]);
    forall id | id in Ids(entries) ensures id + ".json" != name {
      JsonName(id + ".json", id);
      assert site.deck(dir + [id + ".json"]);
    }
  }
}
