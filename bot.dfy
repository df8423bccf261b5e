/**
 * The manifest pipeline of bot.py (`AutoSelectOnekeyApp`): select the
 * freshest repository, walk its file tree, download missing manifests into
 * the manifest directory, collect depot keys from key files, and build the
 * depot -> manifest-id map, each list sorted newest first.
 *
 * The network is a function from (tree entry index, round, endpoint rank) to
 * a reply; the two filename/key-file parsers (src/utils/steam.py) are
 * function parameters; local storage is a `ManifestStore` object holding the
 * files that exist.
 */
module Bot {
  import opened Wrappers
  import opened Text
  import opened GitHub

  const ManifestSuffix := ".manifest"
  const KeyMarker := "key.vdf"
  const ManifestDir := "manifests"

  /** `Path("manifests") / path`. */
  function SavePath(path: string): string {
    ManifestDir + "/" + path
  }

  lemma SavePathInjective(p: string, q: string)
    requires SavePath(p) == SavePath(q)
    ensures p == q
  {
    var n := |ManifestDir + "/"|;
    assert p == SavePath(p)[n..];
    assert q == SavePath(q)[n..];
  }

  datatype EntryKind = ManifestFile | KeyFile | Other

  /** The branches of lines 101 and 115: the manifest suffix is tested first. */
  function Classify(path: string): EntryKind {
    if EndsWith(path, ManifestSuffix) then ManifestFile
    else if Contains(Lower(path), KeyMarker) then KeyFile
    else Other
  }

  /**
   * A manifest exactly when the path ends in `.manifest`; otherwise a key file
   * exactly when the lowered path has a window equal to `key.vdf`.
   */
  lemma ClassifyMeaning(path: string)
    ensures Classify(path) == ManifestFile <==> EndsWith(path, ManifestSuffix)
    ensures Classify(path) == KeyFile <==> !EndsWith(path, ManifestSuffix) && exists i :: OccursAt(Lower(path), KeyMarker, i)
    ensures Classify(path) == Other <==> !EndsWith(path, ManifestSuffix) && forall i :: !OccursAt(Lower(path), KeyMarker, i)
  {
  }

  /** The key marker occurs at `i` when case is ignored: the window of `path` at `i` lowers to the marker. */
  predicate CaseInsensitiveAt(path: string, i: int) {
    0 <= i <= |path| - |KeyMarker| && Lower(path[i..i + |KeyMarker|]) == KeyMarker
  }

  /**
   * The key-file test ignores case: a path that is not a manifest is a key
   * file exactly when some window of it, lowered, is `key.vdf`, and is
   * ignored exactly when no window is.
   */
  lemma KeyFileIsCaseInsensitive(path: string)
    ensures Classify(path) == KeyFile <==> !EndsWith(path, ManifestSuffix) && exists i :: CaseInsensitiveAt(path, i)
    ensures Classify(path) == Other <==> !EndsWith(path, ManifestSuffix) && forall i :: !CaseInsensitiveAt(path, i)
  {
    ClassifyMeaning(path);
    forall i | 0 <= i <= |path| - |KeyMarker|
      ensures CaseInsensitiveAt(path, i) <==> OccursAt(Lower(path), KeyMarker, i)
    {
      assert Lower(path[i..i + |KeyMarker|]) == Lower(path)[i..i + |KeyMarker|];
    }
  }

  lemma ClassifyManifestExamples()
    ensures Classify("1000_50.manifest") == ManifestFile
    ensures Classify("depot/key.vdf.manifest") == ManifestFile
  {
    assert "1000_50.manifest"[7..] == ManifestSuffix;
    assert "depot/key.vdf.manifest"[13..] == ManifestSuffix;
  }

  lemma ClassifyKeyExample()
    ensures Classify("Key.VDF") == KeyFile
  {
    assert !EndsWith("Key.VDF", ManifestSuffix);
    assert Lower("Key.VDF") == "key.vdf";
    assert OccursAt(Lower("Key.VDF"), KeyMarker, 0);
  }

  lemma ClassifyOtherExample()
    ensures Classify("README.md") == Other
  {
    assert !EndsWith("README.md", ManifestSuffix);
    assert Lower("README.md") == "readme.md";
    assert "readme.md"[1..] == "eadme.md" && "eadme.md"[1..] == "adme.md" && "adme.md"[1..] == "dme.md";
    assert "readme.md"[..7][0] != KeyMarker[0];
    assert "eadme.md"[..7][0] != KeyMarker[0];
    assert "adme.md"[..7][0] != KeyMarker[0];
    assert !Contains("readme.md", KeyMarker);
  }

  /** The (depot_id, manifest_id) pair that parse_manifest_filename returns. */
  datatype ManifestName = ManifestName(depotId: Option<string>, manifestId: Option<string>)

  /** `if depot_id and manifest_id`: both present and non-empty. */
  predicate Recognized(n: ManifestName) {
    n.depotId.Some? && n.manifestId.Some? && n.depotId.value != "" && n.manifestId.value != ""
  }

  datatype DepotKey = DepotKey(depotId: string, decryptionKey: string)

  type NameParser = string -> ManifestName
  type KeyParser = Bytes -> seq<DepotKey>

  /** The reply to request (round, rank) when fetching the tree entry at a given index. */
  type Network = (nat, nat, nat) -> HttpReply

  function EntryClient(net: Network, i: nat): Client {
    (r: nat, e: nat) => net(i, r, e)
  }

  /** Every manifest id the filename parser yields is a decimal numeral, so `int(x)` is defined. */
  ghost predicate NumericIds(parse: NameParser) {
    forall p :: Recognized(parse(p)) ==> IsDigits(parse(p).manifestId.value)
  }

  /** The environment of one run: endpoints chosen by locality, the network and the two parsers. */
  datatype Env = Env(endpoints: seq<string>, net: Network, parseName: NameParser, parseKeys: KeyParser)

  // ---------------------------------------------------------------------
  // Depot map: append, then sort newest first
  // ---------------------------------------------------------------------

  predicate AllDigits(ids: seq<string>) {
    forall k :: 0 <= k < |ids| ==> IsDigits(ids[k])
  }

  predicate NumericDepots(m: map<string, seq<string>>) {
    forall d :: d in m ==> AllDigits(m[d])
  }

  /** `int(x)` of a manifest id. */
  function Value(id: string): nat
    requires IsDigits(id)
  {
    ParseNat(id)
  }

  predicate SortedDescending(ids: seq<string>)
    requires AllDigits(ids)
  {
    forall i, j :: 0 <= i < j < |ids| ==> Value(ids[i]) >= Value(ids[j])
  }

  /** `depot_map.setdefault(depot_id, []).append(manifest_id)` when the name was recognized. */
  function AddManifestId(m: map<string, seq<string>>, name: ManifestName): (r: map<string, seq<string>>)
    ensures !Recognized(name) ==> r == m
    ensures Recognized(name) ==>
              && r.Keys == m.Keys + {name.depotId.value}
              && r[name.depotId.value] == (if name.depotId.value in m then m[name.depotId.value] else []) + [name.manifestId.value]
              && forall d :: d in m && d != name.depotId.value ==> r[d] == m[d]
  {
    if Recognized(name) then
      var d := name.depotId.value;
      m[d := (if d in m then m[d] else []) + [name.manifestId.value]]
    else m
  }

  /** An id not below the head of a sorted list can be put in front of it. */
  lemma ConsSorted(h: string, ids: seq<string>)
    requires IsDigits(h) && AllDigits(ids) && SortedDescending(ids)
    requires |ids| > 0 ==> Value(h) >= Value(ids[0])
    ensures AllDigits([h] + ids) && SortedDescending([h] + ids)
  {
    var r := [h] + ids;
    forall i, j | 0 <= i < j < |r| ensures Value(r[i]) >= Value(r[j]) {
      if i > 0 {
        assert r[i] == ids[i - 1] && r[j] == ids[j - 1];
      } else if j > 1 {
        assert Value(ids[0]) >= Value(ids[j - 1]);
      }
    }
  }

  /** Places `x` after every id whose value is at least its own. */
  function InsertDescending(x: string, ids: seq<string>): (r: seq<string>)
    requires IsDigits(x) && AllDigits(ids) && SortedDescending(ids)
    ensures AllDigits(r) && SortedDescending(r)
    ensures multiset(r) == multiset(ids) + multiset{x}
    ensures |r| == |ids| + 1 && (r[0] == x || (|ids| > 0 && r[0] == ids[0]))
    decreases |ids|
  {
    if ids == [] then [x]
    else if Value(ids[0]) < Value(x) then
      ConsSorted(x, ids);
      [x] + ids
    else
      var rest := InsertDescending(x, ids[1..]);
      assert ids == [ids[0]] + ids[1..];
      assert |ids| > 1 ==> Value(ids[0]) >= Value(ids[1]);
      ConsSorted(ids[0], rest);
      [ids[0]] + rest
  }

  /** `ids.sort(key=lambda x: int(x), reverse=True)`. */
  function SortDescending(ids: seq<string>): (r: seq<string>)
    requires AllDigits(ids)
    ensures AllDigits(r) && SortedDescending(r)
    ensures multiset(r) == multiset(ids)
    decreases |ids|
  {
    if ids == [] then []
    else
      assert ids == ids[..|ids| - 1] + [ids[|ids| - 1]];
      InsertDescending(ids[|ids| - 1], SortDescending(ids[..|ids| - 1]))
  }

  lemma ExampleValues()
    ensures Value("50") == 50 && Value("75") == 75 && Value("60") == 60
  {
    assert "50"[..1] == "5" && "75"[..1] == "7" && "60"[..1] == "6";
    assert "5"[..0] == "" && "7"[..0] == "" && "6"[..0] == "";
  }

  lemma SortTwoExample()
    ensures SortDescending(["50", "75"]) == ["75", "50"]
  {
    ExampleValues();
    assert ["50"][..0] == [];
    assert SortDescending(["50"]) == ["50"];
    assert ["50", "75"][..1] == ["50"];
    assert InsertDescending("75", ["50"]) == ["75", "50"];
  }

  lemma InsertExample()
    ensures InsertDescending("60", ["75", "50"]) == ["75", "60", "50"]
  {
    ExampleValues();
    assert InsertDescending("60", ["50"]) == ["60", "50"];
    assert ["75", "50"][1..] == ["50"];
  }

  /** Three manifests of depot 1000 come out newest first. */
  lemma SortExample()
    ensures SortDescending(["50", "75", "60"]) == ["75", "60", "50"]
  {
    SortTwoExample();
    InsertExample();
    assert ["50", "75", "60"][..2] == ["50", "75"];
  }

  /** The final pass of lines 119-120 over every depot. */
  function SortAll(m: map<string, seq<string>>): (r: map<string, seq<string>>)
    requires NumericDepots(m)
    ensures r.Keys == m.Keys
    ensures forall d :: d in r ==> AllDigits(r[d]) && SortedDescending(r[d]) && multiset(r[d]) == multiset(m[d])
  {
    map d | d in m :: SortDescending(m[d])
  }

  // ---------------------------------------------------------------------
  // Tree walk
  // ---------------------------------------------------------------------

  /**
   * The state the walk updates: `depot_list`, `depot_map`, the
   * downloaded-files set, the files in storage, and (for stating what was
   * requested) the paths handed to the CDN fetch, in order.
   */
  datatype Walk = Walk(keys: seq<DepotKey>, depots: map<string, seq<string>>, downloaded: set<string>,
                       files: map<string, Bytes>, fetched: seq<string>)

  /** The walk goes on, or stopped when a download failed (the exception leaves the loop). */
  datatype Progress = Running(w: Walk) | Stopped(w: Walk, error: FetchError)

  function FetchEntry(env: Env, i: nat, path: string): Fetched {
    Fetch(|env.endpoints|, EntryClient(env.net, i), path)
  }

  /** One tree entry (lines 98-117). */
  function EntryStep(w: Walk, env: Env, i: nat, path: string): Progress {
    var kind := Classify(path);
    if kind == ManifestFile then
      var save := SavePath(path);
      if save in w.files then
        Running(w.(depots := AddManifestId(w.depots, env.parseName(path))))
      else
        var fetched := FetchEntry(env, i, path).result;
        if fetched.Err? then Stopped(w.(fetched := w.fetched + [path]), fetched.error)
        else
          Running(w.(files := w.files[save := fetched.value], downloaded := w.downloaded + {path},
                     fetched := w.fetched + [path], depots := AddManifestId(w.depots, env.parseName(path))))
    else if kind == KeyFile then
      var fetched := FetchEntry(env, i, path).result;
      if fetched.Err? then Stopped(w.(fetched := w.fetched + [path]), fetched.error)
      else Running(w.(keys := w.keys + env.parseKeys(fetched.value), fetched := w.fetched + [path]))
    else Running(w)
  }

  /** The walk over the first `i` entries of the tree. */
  function WalkPrefix(w0: Walk, env: Env, tree: seq<string>, i: nat): Progress
    requires i <= |tree|
    decreases i
  {
    if i == 0 then Running(w0)
    else
      match WalkPrefix(w0, env, tree, i - 1)
      case Stopped(w, e) => Stopped(w, e)
      case Running(w) => EntryStep(w, env, i - 1, tree[i - 1])
  }

  /** One more entry of a running walk is one `EntryStep`. */
  lemma WalkPrefixNext(w0: Walk, env: Env, tree: seq<string>, i: nat, w: Walk)
    requires i < |tree| && WalkPrefix(w0, env, tree, i) == Running(w)
    ensures WalkPrefix(w0, env, tree, i + 1) == EntryStep(w, env, i, tree[i])
  {
  }

  /** With a parser that yields decimal manifest ids, every list of the depot map holds decimal ids only. */
  lemma {:induction false} WalkKeepsIdsNumeric(w0: Walk, env: Env, tree: seq<string>, i: nat)
    requires i <= |tree| && NumericIds(env.parseName) && NumericDepots(w0.depots)
    ensures NumericDepots(WalkPrefix(w0, env, tree, i).w.depots)
    decreases i
  {
    if i > 0 {
      WalkKeepsIdsNumeric(w0, env, tree, i - 1);
      var prev := WalkPrefix(w0, env, tree, i - 1);
      var name := env.parseName(tree[i - 1]);
      if prev.Running? && Recognized(name) {
        var ids := if name.depotId.value in prev.w.depots then prev.w.depots[name.depotId.value] else [];
        assert IsDigits(name.manifestId.value);
        assert AllDigits(ids + [name.manifestId.value]);
      }
    }
  }

  /** A walk that still runs after `i` entries was running after every shorter prefix. */
  lemma {:induction false} RunningPrefix(w0: Walk, env: Env, tree: seq<string>, i: nat, j: nat)
    requires j <= i <= |tree|
    requires WalkPrefix(w0, env, tree, i).Running?
    ensures WalkPrefix(w0, env, tree, j).Running?
    decreases i - j
  {
    if j < i {
      RunningPrefix(w0, env, tree, i - 1, j);
    }
  }

  /** Once a download failed, the walk stays stopped with the same state and error. */
  lemma {:induction false} StoppedPersists(w0: Walk, env: Env, tree: seq<string>, j: nat, i: nat)
    requires j <= i <= |tree|
    requires WalkPrefix(w0, env, tree, j).Stopped?
    ensures WalkPrefix(w0, env, tree, i) == WalkPrefix(w0, env, tree, j)
    decreases i - j
  {
    if j < i {
      StoppedPersists(w0, env, tree, j, i - 1);
    }
  }

  ghost predicate IsManifestOf(parse: NameParser, path: string, d: string) {
    Classify(path) == ManifestFile && Recognized(parse(path)) && parse(path).depotId.value == d
  }

  /** Reference definition: the manifest ids of depot `d` among the first `i` entries, in tree order. */
  ghost function IdsFor(parse: NameParser, tree: seq<string>, i: nat, d: string): seq<string>
    requires i <= |tree|
    decreases i
  {
    if i == 0 then []
    else IdsFor(parse, tree, i - 1, d) + (if IsManifestOf(parse, tree[i - 1], d) then [parse(tree[i - 1]).manifestId.value] else [])
  }

  /**
   * Starting from an empty map, a running walk maps exactly the depots that
   * have a recognized manifest entry, each to its ids in tree order, whether
   * or not the file was downloaded.
   */
  lemma {:induction false} WalkDepotsAreIdsInTreeOrder(w0: Walk, env: Env, tree: seq<string>, i: nat)
    requires i <= |tree| && w0.depots == map[]
    requires WalkPrefix(w0, env, tree, i).Running?
    ensures var m := WalkPrefix(w0, env, tree, i).w.depots;
            forall d :: (d in m <==> IdsFor(env.parseName, tree, i, d) != [])
                        && (d in m ==> m[d] == IdsFor(env.parseName, tree, i, d))
    decreases i
  {
    if i > 0 {
      RunningPrefix(w0, env, tree, i, i - 1);
      WalkDepotsAreIdsInTreeOrder(w0, env, tree, i - 1);
    }
  }

  /**
   * A path under the manifest directory that the walk created: the save path
   * of a manifest entry of the tree, holding the bytes its download returned.
   */
  ghost predicate WrittenBy(env: Env, tree: seq<string>, i: nat, f: string, content: Bytes)
    requires i <= |tree|
  {
    exists k :: 0 <= k < i && Classify(tree[k]) == ManifestFile && f == SavePath(tree[k])
                && FetchEntry(env, k, tree[k]).result == Ok(content)
  }

  /**
   * Storage only grows: existing files are never overwritten, and every new
   * file is the save path of a manifest entry and holds the bytes that
   * entry's download returned.
   */
  lemma {:induction false} WalkKeepsFiles(w0: Walk, env: Env, tree: seq<string>, i: nat)
    requires i <= |tree|
    ensures var w := WalkPrefix(w0, env, tree, i).w;
            && w0.files.Keys <= w.files.Keys
            && (forall f :: f in w0.files ==> w.files[f] == w0.files[f])
            && (forall f :: f in w.files && f !in w0.files ==> WrittenBy(env, tree, i, f, w.files[f]))
    decreases i
  {
    if i > 0 {
      WalkKeepsFiles(w0, env, tree, i - 1);
      var prev := WalkPrefix(w0, env, tree, i - 1);
      var w := prev.w;
      var now := WalkPrefix(w0, env, tree, i).w;
      if prev.Running? {
        WalkPrefixNext(w0, env, tree, i - 1, w);
        EntryStepOnlyAddsManifest(w, env, i - 1, tree[i - 1]);
      }
      forall f | f in now.files && f !in w0.files
        ensures WrittenBy(env, tree, i, f, now.files[f])
      {
        if f in w.files {
          var k :| 0 <= k < i - 1 && Classify(tree[k]) == ManifestFile && f == SavePath(tree[k])
                   && FetchEntry(env, k, tree[k]).result == Ok(w.files[f]);
          assert now.files[f] == w.files[f];
        } else {
          assert Classify(tree[i - 1]) == ManifestFile && f == SavePath(tree[i - 1])
                 && FetchEntry(env, i - 1, tree[i - 1]).result == Ok(now.files[f]);
        }
      }
    }
  }

  /**
   * Storage and the downloaded set only grow (`WalkKeepsFiles`), and a path
   * is added to the downloaded set only when its file was missing and has
   * now been written.
   */
  lemma {:induction false} WalkOnlyAddsManifests(w0: Walk, env: Env, tree: seq<string>, i: nat)
    requires i <= |tree|
    ensures var w := WalkPrefix(w0, env, tree, i).w;
            && w0.files.Keys <= w.files.Keys
            && (forall f :: f in w0.files ==> w.files[f] == w0.files[f])
            && (forall f :: f in w.files && f !in w0.files ==> WrittenBy(env, tree, i, f, w.files[f]))
            && w0.downloaded <= w.downloaded
            && (forall p :: p in w.downloaded && p !in w0.downloaded ==>
                  Classify(p) == ManifestFile && SavePath(p) !in w0.files && SavePath(p) in w.files)
    decreases i
  {
    WalkKeepsFiles(w0, env, tree, i);
    if i > 0 {
      WalkOnlyAddsManifests(w0, env, tree, i - 1);
      var prev := WalkPrefix(w0, env, tree, i - 1);
      if prev.Running? {
        EntryStepOnlyAddsManifest(prev.w, env, i - 1, tree[i - 1]);
      }
    }
  }

  /** One entry: storage and the downloaded set only grow, and only by that entry's manifest. */
  lemma EntryStepOnlyAddsManifest(w: Walk, env: Env, i: nat, path: string)
    ensures var w' := EntryStep(w, env, i, path).w;
            && w.files.Keys <= w'.files.Keys
            && (forall f :: f in w.files ==> w'.files[f] == w.files[f])
            && (forall f :: f in w'.files && f !in w.files ==>
                  Classify(path) == ManifestFile && f == SavePath(path) && FetchEntry(env, i, path).result == Ok(w'.files[f]))
            && w.downloaded <= w'.downloaded
            && (forall p :: p in w'.downloaded && p !in w.downloaded ==>
                  p == path && Classify(p) == ManifestFile && SavePath(p) !in w.files && SavePath(p) in w'.files)
  {
  }

  /** After a running walk, every manifest entry of the tree exists in storage. */
  lemma {:induction false} WalkStoresEveryManifest(w0: Walk, env: Env, tree: seq<string>, i: nat)
    requires i <= |tree|
    requires WalkPrefix(w0, env, tree, i).Running?
    ensures forall k :: 0 <= k < i && Classify(tree[k]) == ManifestFile ==>
              SavePath(tree[k]) in WalkPrefix(w0, env, tree, i).w.files
    decreases i
  {
    if i > 0 {
      RunningPrefix(w0, env, tree, i, i - 1);
      WalkStoresEveryManifest(w0, env, tree, i - 1);
      WalkOnlyAddsManifests(w0, env, tree, i - 1);
    }
  }

  /** Reference definition: the manifest entries among the first `i` whose save path was missing from `files`. */
  ghost function MissingManifests(files: map<string, Bytes>, tree: seq<string>, i: nat): set<string>
    requires i <= |tree|
  {
    set k | 0 <= k < i && Classify(tree[k]) == ManifestFile && SavePath(tree[k]) !in files :: tree[k]
  }

  lemma MissingManifestsStep(files: map<string, Bytes>, tree: seq<string>, i: nat)
    requires 0 < i <= |tree|
    ensures MissingManifests(files, tree, i)
            == MissingManifests(files, tree, i - 1)
               + (if Classify(tree[i - 1]) == ManifestFile && SavePath(tree[i - 1]) !in files then {tree[i - 1]} else {})
  {
    var extra := if Classify(tree[i - 1]) == ManifestFile && SavePath(tree[i - 1]) !in files then {tree[i - 1]} else {};
    forall p | p in MissingManifests(files, tree, i) ensures p in MissingManifests(files, tree, i - 1) + extra {
      var k :| 0 <= k < i && Classify(tree[k]) == ManifestFile && SavePath(tree[k]) !in files && tree[k] == p;
      if k < i - 1 {
        assert tree[k] in MissingManifests(files, tree, i - 1);
      }
    }
    forall p | p in MissingManifests(files, tree, i - 1) + extra ensures p in MissingManifests(files, tree, i) {
      if p in MissingManifests(files, tree, i - 1) {
        var k :| 0 <= k < i - 1 && Classify(tree[k]) == ManifestFile && SavePath(tree[k]) !in files && tree[k] == p;
        assert tree[k] in MissingManifests(files, tree, i);
      } else {
        assert tree[i - 1] in MissingManifests(files, tree, i);
      }
    }
  }

  /**
   * Entry `k` is handed to the CDN fetch: a key file always, a manifest when
   * its file is missing from the starting storage and no earlier entry with
   * the same path already wrote it.
   */
  ghost predicate NeedsFetch(files: map<string, Bytes>, tree: seq<string>, k: nat)
    requires k < |tree|
  {
    || Classify(tree[k]) == KeyFile
    || (Classify(tree[k]) == ManifestFile && SavePath(tree[k]) !in files && tree[k] !in tree[..k])
  }

  /** Reference definition: the entries among the first `i` that are fetched, in tree order. */
  ghost function FetchedFor(files: map<string, Bytes>, tree: seq<string>, i: nat): seq<string>
    requires i <= |tree|
    decreases i
  {
    if i == 0 then []
    else FetchedFor(files, tree, i - 1) + (if NeedsFetch(files, tree, i - 1) then [tree[i - 1]] else [])
  }

  /**
   * At its turn, a manifest entry's file is present exactly when it was in
   * the starting storage or an earlier entry had the same path; in the latter
   * case, if it was not in the starting storage, that earlier entry is a
   * missing manifest.
   */
  lemma PresentAtTurn(w0: Walk, env: Env, tree: seq<string>, i: nat)
    requires i < |tree| && Classify(tree[i]) == ManifestFile
    requires WalkPrefix(w0, env, tree, i).Running?
    ensures var w := WalkPrefix(w0, env, tree, i).w;
            && (SavePath(tree[i]) in w.files <==> SavePath(tree[i]) in w0.files || tree[i] in tree[..i])
            && (SavePath(tree[i]) in w.files && SavePath(tree[i]) !in w0.files ==> tree[i] in MissingManifests(w0.files, tree, i))
  {
    WalkStoresEveryManifest(w0, env, tree, i);
    WalkKeepsFiles(w0, env, tree, i);
    var w := WalkPrefix(w0, env, tree, i).w;
    var p := tree[i];
    if SavePath(p) in w.files && SavePath(p) !in w0.files {
      var k :| 0 <= k < i && Classify(tree[k]) == ManifestFile && SavePath(p) == SavePath(tree[k])
               && FetchEntry(env, k, tree[k]).result == Ok(w.files[SavePath(p)]);
      SavePathInjective(p, tree[k]);
      assert tree[..i][k] == p;
      assert tree[k] in MissingManifests(w0.files, tree, i);
    }
    if p in tree[..i] {
      var k :| 0 <= k < i && tree[..i][k] == p;
      assert tree[k] == p;
    }
  }

  /** A running walk adds to the downloaded set exactly the manifest entries whose file was missing from the starting storage. */
  lemma {:induction false} WalkDownloadsExactlyMissing(w0: Walk, env: Env, tree: seq<string>, i: nat)
    requires i <= |tree|
    requires WalkPrefix(w0, env, tree, i).Running?
    ensures WalkPrefix(w0, env, tree, i).w.downloaded == w0.downloaded + MissingManifests(w0.files, tree, i)
    decreases i
  {
    if i > 0 {
      RunningPrefix(w0, env, tree, i, i - 1);
      WalkDownloadsExactlyMissing(w0, env, tree, i - 1);
      var w := WalkPrefix(w0, env, tree, i - 1).w;
      WalkPrefixNext(w0, env, tree, i - 1, w);
      EntryStepDownloads(w, env, i - 1, tree[i - 1]);
      WalkKeepsFiles(w0, env, tree, i - 1);
      MissingManifestsStep(w0.files, tree, i);
      if Classify(tree[i - 1]) == ManifestFile {
        PresentAtTurn(w0, env, tree, i - 1);
      }
    }
  }

  /** One entry adds its own path to the downloaded set exactly when it is a manifest whose file is missing. */
  lemma EntryStepDownloads(w: Walk, env: Env, i: nat, path: string)
    requires EntryStep(w, env, i, path).Running?
    ensures EntryStep(w, env, i, path).w.downloaded
            == w.downloaded + (if Classify(path) == ManifestFile && SavePath(path) !in w.files then {path} else {})
  {
  }

  /**
   * A running walk fetches exactly the key files and, once each, the
   * manifests whose file was missing from the starting storage, in tree order.
   */
  lemma {:induction false} WalkFetchesExactlyMissing(w0: Walk, env: Env, tree: seq<string>, i: nat)
    requires i <= |tree|
    requires WalkPrefix(w0, env, tree, i).Running?
    ensures WalkPrefix(w0, env, tree, i).w.fetched == w0.fetched + FetchedFor(w0.files, tree, i)
    decreases i
  {
    if i > 0 {
      RunningPrefix(w0, env, tree, i, i - 1);
      WalkFetchesExactlyMissing(w0, env, tree, i - 1);
      if Classify(tree[i - 1]) == ManifestFile {
        PresentAtTurn(w0, env, tree, i - 1);
      }
    }
  }

  /**
   * Reference definition: the keys of the key files among the first `i`
   * entries, in tree order, each file fetched with no existence check.
   */
  function KeysFor(env: Env, tree: seq<string>, i: nat): seq<DepotKey>
    requires i <= |tree|
    decreases i
  {
    if i == 0 then []
    else
      KeysFor(env, tree, i - 1)
      + (if Classify(tree[i - 1]) == KeyFile && FetchEntry(env, i - 1, tree[i - 1]).result.Ok?
         then env.parseKeys(FetchEntry(env, i - 1, tree[i - 1]).result.value) else [])
  }

  /**
   * A running walk fetched every key file, whatever storage holds, and
   * extended the key list with their keys in tree order.
   */
  lemma {:induction false} WalkCollectsEveryKeyFile(w0: Walk, env: Env, tree: seq<string>, i: nat)
    requires i <= |tree|
    requires WalkPrefix(w0, env, tree, i).Running?
    ensures WalkPrefix(w0, env, tree, i).w.keys == w0.keys + KeysFor(env, tree, i)
    ensures forall k :: 0 <= k < i && Classify(tree[k]) == KeyFile ==> FetchEntry(env, k, tree[k]).result.Ok?
    decreases i
  {
    if i > 0 {
      RunningPrefix(w0, env, tree, i, i - 1);
      WalkCollectsEveryKeyFile(w0, env, tree, i - 1);
    }
  }

  /** An entry that is neither a manifest nor a key file changes nothing and fetches nothing. */
  lemma OtherEntryChangesNothing(w: Walk, env: Env, i: nat, path: string)
    requires Classify(path) == Other
    ensures EntryStep(w, env, i, path) == Running(w)
  {
  }

  /**
   * When every manifest entry is already in storage, a walk fetches only key
   * files, writes nothing and downloads nothing; with the same starting
   * lists, it ends with the same keys and depot map as a walk that ran from
   * any other storage; and it runs, whenever that other walk ran.
   */
  lemma {:induction false} WalkWithEveryManifestPresent(w0: Walk, w1: Walk, env: Env, tree: seq<string>, i: nat)
    requires i <= |tree|
    requires w1.keys == w0.keys && w1.depots == w0.depots && w1.fetched == []
    requires forall k :: 0 <= k < |tree| && Classify(tree[k]) == ManifestFile ==> SavePath(tree[k]) in w1.files
    requires WalkPrefix(w0, env, tree, i).Running?
    ensures var p1 := WalkPrefix(w1, env, tree, i);
            && p1.Running?
            && p1.w.keys == WalkPrefix(w0, env, tree, i).w.keys
            && p1.w.depots == WalkPrefix(w0, env, tree, i).w.depots
            && p1.w.files == w1.files
            && p1.w.downloaded == w1.downloaded
            && forall k :: 0 <= k < |p1.w.fetched| ==> Classify(p1.w.fetched[k]) == KeyFile
    decreases i
  {
    if i > 0 {
      RunningPrefix(w0, env, tree, i, i - 1);
      WalkWithEveryManifestPresent(w0, w1, env, tree, i - 1);
    }
  }

  // ---------------------------------------------------------------------
  // handle_depot_files as a function of its inputs
  // ---------------------------------------------------------------------

  datatype PipelineError = TreeUnavailable | DownloadFailed(error: FetchError)

  /** The result of the call and the walk state it leaves behind. */
  datatype Handled = Handled(result: Result<(seq<DepotKey>, map<string, seq<string>>), PipelineError>, w: Walk)

  /**
   * Lines 76-122. `tree` is `None` when the branch or tree request fails
   * (`raise_for_status`); `downloaded` and `files` are the state before the call.
   */
  function HandleSpec(candidates: seq<Candidate>, tree: Option<seq<string>>, env: Env,
                      downloaded: set<string>, files: map<string, Bytes>): Handled
    requires NumericIds(env.parseName)
  {
    var w0 := Walk([], map[], downloaded, files, []);
    if SelectAsWritten(candidates).None? then Handled(Ok(([], map[])), w0)
    else if tree.None? then Handled(Err(TreeUnavailable), w0)
    else
      match WalkPrefix(w0, env, tree.value, |tree.value|)
      case Stopped(w, e) => Handled(Err(DownloadFailed(e)), w)
      case Running(w) =>
        WalkKeepsIdsNumeric(w0, env, tree.value, |tree.value|);
        Handled(Ok((w.keys, SortAll(w.depots))), w)
  }

  /**
   * No candidate gave a 200 reply with commit data and a readable date: empty
   * lists, no request, nothing stored.
   */
  lemma NoRepositoryNoResult(candidates: seq<Candidate>, tree: Option<seq<string>>, env: Env,
                             downloaded: set<string>, files: map<string, Bytes>)
    requires NumericIds(env.parseName)
    requires forall j :: 0 <= j < |candidates| ==> !Accepted(candidates[j])
    ensures HandleSpec(candidates, tree, env, downloaded, files) == Handled(Ok(([], map[])), Walk([], map[], downloaded, files, []))
  {
    FoldAsWrittenTracksLatest(candidates);
    LatestNoneIffNoneEligible(candidates, false);
  }

  /**
   * With non-empty names, the tree is requested exactly when some candidate
   * was accepted, whether or not its reply carried a sha: a failing tree
   * request then surfaces as an error, and otherwise the result is empty.
   */
  lemma TreeRequestedIffSomeAccepted(candidates: seq<Candidate>, env: Env,
                                     downloaded: set<string>, files: map<string, Bytes>)
    requires NumericIds(env.parseName) && NamesNonEmpty(candidates)
    ensures HandleSpec(candidates, None, env, downloaded, files).result
            == if exists j :: 0 <= j < |candidates| && Accepted(candidates[j]) then Err(TreeUnavailable) else Ok(([], map[]))
  {
    SelectAsWrittenIsFirstLatest(candidates);
  }

  /**
   * On success, the depot map has exactly the depots with a recognized
   * manifest entry; each list is sorted newest first and is a permutation
   * (duplicates kept) of that depot's ids in tree order.
   */
  lemma DepotMapIsSortedIdsPerDepot(candidates: seq<Candidate>, tree: Option<seq<string>>, env: Env,
                                    downloaded: set<string>, files: map<string, Bytes>)
    requires NumericIds(env.parseName)
    requires HandleSpec(candidates, tree, env, downloaded, files).result.Ok?
    requires SelectAsWritten(candidates).Some?
    ensures var m := HandleSpec(candidates, tree, env, downloaded, files).result.value.1;
            forall d :: (d in m <==> IdsFor(env.parseName, tree.value, |tree.value|, d) != [])
                        && (d in m ==> AllDigits(m[d]) && SortedDescending(m[d])
                                       && multiset(m[d]) == multiset(IdsFor(env.parseName, tree.value, |tree.value|, d)))
  {
    var w0 := Walk([], map[], downloaded, files, []);
    WalkDepotsAreIdsInTreeOrder(w0, env, tree.value, |tree.value|);
  }

  /**
   * On success, the call downloads and tracks exactly the manifest entries
   * whose file was missing, fetches exactly the entries `FetchedFor` names,
   * and, starting from an empty tracked set (as `run` does), the tracked
   * files that exist are exactly the save paths of those missing manifests.
   */
  lemma DownloadsExactlyMissingManifests(candidates: seq<Candidate>, tree: Option<seq<string>>, env: Env,
                                         downloaded: set<string>, files: map<string, Bytes>)
    requires NumericIds(env.parseName)
    requires HandleSpec(candidates, tree, env, downloaded, files).result.Ok?
    requires SelectAsWritten(candidates).Some?
    ensures var h := HandleSpec(candidates, tree, env, downloaded, files);
            && h.w.downloaded == downloaded + MissingManifests(files, tree.value, |tree.value|)
            && h.w.fetched == FetchedFor(files, tree.value, |tree.value|)
            && (downloaded == {} ==>
                  TrackedFiles(h.w.downloaded, h.w.files)
                  == set p | p in MissingManifests(files, tree.value, |tree.value|) :: SavePath(p))
  {
    var t := tree.value;
    var w0 := Walk([], map[], downloaded, files, []);
    WalkDownloadsExactlyMissing(w0, env, t, |t|);
    WalkFetchesExactlyMissing(w0, env, t, |t|);
    WalkStoresEveryManifest(w0, env, t, |t|);
    var w := WalkPrefix(w0, env, t, |t|).w;
    forall p | p in MissingManifests(files, t, |t|) ensures SavePath(p) in w.files {
      var k :| 0 <= k < |t| && Classify(t[k]) == ManifestFile && SavePath(t[k]) !in files && t[k] == p;
    }
  }

  /**
   * Running the pipeline a second time over storage left by a successful
   * first run downloads nothing, writes nothing, fetches only key files and
   * returns the same keys and depot map.
   */
  lemma SecondRunIsIdempotent(candidates: seq<Candidate>, tree: Option<seq<string>>, env: Env,
                              files: map<string, Bytes>)
    requires NumericIds(env.parseName)
    requires HandleSpec(candidates, tree, env, {}, files).result.Ok?
    ensures var first := HandleSpec(candidates, tree, env, {}, files);
            var second := HandleSpec(candidates, tree, env, {}, first.w.files);
            && second.result == first.result
            && second.w.downloaded == {}
            && second.w.files == first.w.files
            && forall k :: 0 <= k < |second.w.fetched| ==> Classify(second.w.fetched[k]) != ManifestFile
  {
    var first := HandleSpec(candidates, tree, env, {}, files);
    if SelectAsWritten(candidates).Some? && tree.Some? {
      var w0 := Walk([], map[], {}, files, []);
      var w1 := Walk([], map[], {}, first.w.files, []);
      WalkStoresEveryManifest(w0, env, tree.value, |tree.value|);
      WalkWithEveryManifestPresent(w0, w1, env, tree.value, |tree.value|);
    }
  }

  // ---------------------------------------------------------------------
  // The stateful objects
  // ---------------------------------------------------------------------

  /** Local storage: the files that exist, by path. */
  class ManifestStore {
    var files: map<string, Bytes>

    constructor (files: map<string, Bytes>)
      ensures this.files == files
    {
      this.files := files;
    }

    /** `save_path.write_bytes(content)`. */
    method Write(path: string, content: Bytes)
      modifies this
      ensures files == old(files)[path := content]
    {
      files := files[path := content];
    }
  }

  /** The paths under the manifest directory of the tracked files that exist. */
  ghost function TrackedFiles(downloaded: set<string>, files: map<string, Bytes>): set<string> {
    set p | p in downloaded && SavePath(p) in files :: SavePath(p)
  }

  lemma TrackedFilesAdd(done: set<string>, p: string, files: map<string, Bytes>)
    ensures TrackedFiles(done + {p}, files)
            == TrackedFiles(done, files) + (if SavePath(p) in files then {SavePath(p)} else {})
  {
  }

  class OnekeyApp {
    var downloadedFiles: set<string>
    const github: GitHubApi
    const store: ManifestStore

    constructor (github: GitHubApi, store: ManifestStore)
      ensures this.github == github && this.store == store && downloadedFiles == {}
    {
      this.github := github;
      this.store := store;
      downloadedFiles := {};
    }

    /**
     * Lines 74-122. The candidates carry the branch replies of the selection,
     * `tree` the tree listing (or `None` when its requests fail). On a failed
     * download the files written and paths tracked so far stay.
     */
    method HandleDepotFiles(candidates: seq<Candidate>, tree: Option<seq<string>>, net: Network,
                            parseName: NameParser, parseKeys: KeyParser)
      returns (result: Result<(seq<DepotKey>, map<string, seq<string>>), PipelineError>, ghost fetched: seq<string>)
      requires NumericIds(parseName)
      modifies this`downloadedFiles, store
      ensures var h := HandleSpec(candidates, tree, Env(github.Endpoints(), net, parseName, parseKeys),
                                  old(downloadedFiles), old(store.files));
              && result == h.result
              && downloadedFiles == h.w.downloaded
              && store.files == h.w.files
              && fetched == h.w.fetched
    {
      var depotList: seq<DepotKey> := [];
      var depotMap: map<string, seq<string>> := map[];
      fetched := [];
      var repoInfo := github.GetLatestRepoInfo(candidates);
      if repoInfo.None? {
        return Ok((depotList, depotMap)), fetched;
      }
      if tree.None? {
        return Err(TreeUnavailable), fetched;
      }
      ghost var w0 := Walk([], map[], downloadedFiles, store.files, []);
      var failed;
      depotList, depotMap, fetched, failed := WalkTree(repoInfo.value, tree.value, net, parseName, parseKeys);
      if failed.Some? {
        return Err(DownloadFailed(failed.value)), fetched;
      }
      WalkKeepsIdsNumeric(w0, Env(github.Endpoints(), net, parseName, parseKeys), tree.value, |tree.value|);
      depotMap := SortEachDepot(depotMap);
      result := Ok((depotList, depotMap));
    }

    /** The loop of lines 98-117 over the whole tree, stopping at the first failed download. */
    method WalkTree(repo: RepoInfo, paths: seq<string>, net: Network, parseName: NameParser, parseKeys: KeyParser)
      returns (depotList: seq<DepotKey>, depotMap: map<string, seq<string>>, ghost fetched: seq<string>,
               failed: Option<FetchError>)
      modifies this`downloadedFiles, store
      ensures var env := Env(github.Endpoints(), net, parseName, parseKeys);
              var after := Walk(depotList, depotMap, downloadedFiles, store.files, fetched);
              WalkPrefix(Walk([], map[], old(downloadedFiles), old(store.files), []), env, paths, |paths|)
                == if failed.None? then Running(after) else Stopped(after, failed.value)
    {
      ghost var env := Env(github.Endpoints(), net, parseName, parseKeys);
      ghost var w0 := Walk([], map[], downloadedFiles, store.files, []);
      depotList, depotMap, fetched, failed := [], map[], [], None;
      var i := 0;
      while i < |paths|
        invariant i <= |paths| && failed.None?
        invariant github.Endpoints() == env.endpoints
        invariant WalkPrefix(w0, env, paths, i) == Running(Walk(depotList, depotMap, downloadedFiles, store.files, fetched))
      {
        WalkPrefixNext(w0, env, paths, i, Walk(depotList, depotMap, downloadedFiles, store.files, fetched));
        depotList, depotMap, fetched, failed :=
          HandleEntry(repo, i, paths[i], net, parseName, parseKeys, depotList, depotMap, fetched);
        if failed.Some? {
          StoppedPersists(w0, env, paths, i + 1, |paths|);
          return;
        }
        i := i + 1;
      }
    }

    /** The body of the loop of lines 98-117 for the entry at index `i`. */
    method HandleEntry(repo: RepoInfo, i: nat, path: string, net: Network, parseName: NameParser, parseKeys: KeyParser,
                       depotList: seq<DepotKey>, depotMap: map<string, seq<string>>, ghost fetched: seq<string>)
      returns (depotList': seq<DepotKey>, depotMap': map<string, seq<string>>, ghost fetched': seq<string>,
               failed: Option<FetchError>)
      modifies this`downloadedFiles, store
      ensures var env := Env(github.Endpoints(), net, parseName, parseKeys);
              var after := Walk(depotList', depotMap', downloadedFiles, store.files, fetched');
              EntryStep(Walk(depotList, depotMap, old(downloadedFiles), old(store.files), fetched), env, i, path)
                == if failed.None? then Running(after) else Stopped(after, failed.value)
    {
      depotList', depotMap', fetched', failed := depotList, depotMap, fetched, None;
      if EndsWith(path, ManifestSuffix) {
        var save := SavePath(path);
        if save !in store.files {
          var content, _ := github.FetchFile(repo.name, repo.sha.GetOr(""), path, EntryClient(net, i));
          fetched' := fetched' + [path];
          if content.Err? {
            failed := Some(content.error);
            return;
          }
          store.Write(save, content.value);
          downloadedFiles := downloadedFiles + {path};
        }
        var parsed := parseName(path);
        if Recognized(parsed) {
          var d := parsed.depotId.value;
          depotMap' := depotMap'[d := (if d in depotMap' then depotMap'[d] else []) + [parsed.manifestId.value]];
        }
      } else if Contains(Lower(path), KeyMarker) {
        var content, _ := github.FetchFile(repo.name, repo.sha.GetOr(""), path, EntryClient(net, i));
        fetched' := fetched' + [path];
        if content.Err? {
          failed := Some(content.error);
          return;
        }
        depotList' := depotList' + parseKeys(content.value);
      }
    }

    /** Lines 119-120: each depot's list, sorted newest first, key by key. */
    method SortEachDepot(m: map<string, seq<string>>) returns (r: map<string, seq<string>>)
      requires NumericDepots(m)
      ensures r == SortAll(m)
    {
      r := m;
      var pending := m.Keys;
      while pending != {}
        invariant pending <= m.Keys && r.Keys == m.Keys
        invariant forall d :: d in m && d !in pending ==> r[d] == SortDescending(m[d])
        invariant forall d :: d in pending ==> r[d] == m[d]
        decreases pending
      {
        var d :| d in pending;
        r := r[d := SortDescending(m[d])];
        pending := pending - {d};
      }
      ghost var sorted := SortAll(m);
      assert r.Keys == sorted.Keys;
      assert forall d :: d in r ==> r[d] == sorted[d];
    }

    /** Lines 61-66: the save paths of the tracked files that still exist, each once. */
    method CollectManifestFiles() returns (manifestFiles: seq<string>)
      ensures (set f | f in manifestFiles) == TrackedFiles(downloadedFiles, store.files)
      ensures forall a, b :: 0 <= a < b < |manifestFiles| ==> manifestFiles[a] != manifestFiles[b]
    {
      manifestFiles := [];
      var pending := downloadedFiles;
      while pending != {}
        invariant pending <= downloadedFiles
        invariant (set f | f in manifestFiles) == TrackedFiles(downloadedFiles - pending, store.files)
        invariant forall a, b :: 0 <= a < b < |manifestFiles| ==> manifestFiles[a] != manifestFiles[b]
        decreases pending
      {
        var p :| p in pending;
        ghost var done := downloadedFiles - pending;
        TrackedFilesAdd(done, p, store.files);
        assert downloadedFiles - (pending - {p}) == done + {p};
        if SavePath(p) in store.files {
          if SavePath(p) in manifestFiles {
            assert SavePath(p) in TrackedFiles(done, store.files);
            ghost var q :| q in done && SavePath(q) in store.files && SavePath(q) == SavePath(p);
            SavePathInjective(p, q);
          }
          manifestFiles := manifestFiles + [SavePath(p)];
        }
        pending := pending - {p};
      }
    }

    /**
     * Lines 32-72 without region detection's internals: the locality flag and
     * the configuration tool's outcome (`None` when it raises) are inputs.
     * Returns the success flag and the tracked manifest files that exist.
     */
    method Run(isCn: bool, candidates: seq<Candidate>, tree: Option<seq<string>>, net: Network,
               parseName: NameParser, parseKeys: KeyParser, setup: Option<bool>)
      returns (success: bool, manifestFiles: seq<string>)
      requires NumericIds(parseName)
      modifies this`downloadedFiles, store, github
      ensures github.isCn == isCn
      ensures var h := HandleSpec(candidates, tree, Env(CdnList(github.cdn, isCn), net, parseName, parseKeys),
                                  {}, old(store.files));
              && downloadedFiles == h.w.downloaded
              && store.files == h.w.files
              && (h.result.Err? || h.result.value.0 == [] || setup.None? ==> !success && manifestFiles == [])
              && (h.result.Ok? && h.result.value.0 != [] && setup.Some? ==>
                    && success == setup.value
                    && (set f | f in manifestFiles) == TrackedFiles(downloadedFiles, store.files)
                    && (set f | f in manifestFiles)
                       == (set p | p in MissingManifests(old(store.files), tree.value, |tree.value|) :: SavePath(p))
                    && forall a, b :: 0 <= a < b < |manifestFiles| ==> manifestFiles[a] != manifestFiles[b])
    {
      downloadedFiles := {};
      github.isCn := isCn;
      var handled, _ := HandleDepotFiles(candidates, tree, net, parseName, parseKeys);
      if handled.Err? {
        return false, [];
      }
      var depotData := handled.value.0;
      if depotData == [] {
        return false, [];
      }
      if setup.None? {
        return false, [];
      }
      success := setup.value;
      DownloadsExactlyMissingManifests(candidates, tree, Env(CdnList(github.cdn, isCn), net, parseName, parseKeys),
                                       {}, old(store.files));
      manifestFiles := CollectManifestFiles();
    }
  }
}
