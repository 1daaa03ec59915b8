/** The StateList class of envcrypto/state.py: every environment file of the
    directory opened with one key, the last one the key unlocks being the
    active deployment level, and the cross-file variable check. */
module StateLists {
  import opened Wrappers
  import opened Exceptions
  import opened Cipher
  import opened Dicts
  import opened EnvFile
  import opened States

  /** The files whose names the glob returned, each opened as a State, and
      the position of the active one. */
  datatype Listing = Listing(views: seq<Snapshot>, current: Option<nat>)

  // ---------------------------------------------------------------------
  // The loop of read_list, for any way of opening one file

  /** The loop of read_list over `names`, where `visit` opens one file: the
      States in order, the last decrypted one becoming the current one, and
      the first failure ending the loop. */
  function ListVisits(names: seq<string>, visit: string -> Result<Snapshot, Error>): (r: Result<Listing, Error>)
    ensures r.Success? ==> |r.value.views| == |names|
    ensures r.Success? && r.value.current.Some? ==>
      r.value.current.value < |names| && r.value.views[r.value.current.value].decrypted
  {
    if names == [] then Success(Listing([], None))
    else
      match ListVisits(names[..|names| - 1], visit)
      case Failure(e) => Failure(e)
      case Success(l) =>
        match visit(names[|names| - 1])
        case Failure(e) => Failure(e)
        case Success(v) => Success(Listing(l.views + [v], if v.decrypted then Some(|names| - 1) else l.current))
  }

  /** A successful loop is the loop over all but the last file, followed by
      the last one. */
  lemma ListVisitsLast(names: seq<string>, visit: string -> Result<Snapshot, Error>)
    requires names != [] && ListVisits(names, visit).Success?
    ensures var rp := ListVisits(names[..|names| - 1], visit);
      var v := visit(names[|names| - 1]);
      && rp.Success? && v.Success?
      && ListVisits(names, visit).value.views == rp.value.views + [v.value]
      && ListVisits(names, visit).value.current == if v.value.decrypted then Some(|names| - 1) else rp.value.current
  {
  }

  /** A successful loop holds, at each position, what visiting that file gave. */
  lemma {:induction false} ListVisitsView(names: seq<string>, visit: string -> Result<Snapshot, Error>, j: nat)
    requires j < |names| && ListVisits(names, visit).Success?
    ensures visit(names[j]).Success? && ListVisits(names, visit).value.views[j] == visit(names[j]).value
  {
    var p := names[..|names| - 1];
    ListVisitsLast(names, visit);
    if j < |p| {
      assert p[j] == names[j];
      ListVisitsView(p, visit, j);
    }
  }

  /** A loop that fails has visited a file that failed, with that file's error. */
  lemma {:induction false} ListVisitsFailureAt(names: seq<string>, visit: string -> Result<Snapshot, Error>)
    requires ListVisits(names, visit).Failure?
    ensures exists j | 0 <= j < |names| :: visit(names[j]) == Failure(ListVisits(names, visit).error)
  {
    var p := names[..|names| - 1];
    if ListVisits(p, visit).Failure? {
      ListVisitsFailureAt(p, visit);
      var j :| 0 <= j < |p| && visit(p[j]) == Failure(ListVisits(p, visit).error);
      assert names[j] == p[j];
    } else {
      assert names[|p|] == names[|names| - 1];
    }
  }

  /** A decrypted State is at or before the current position. */
  lemma {:induction false} ListVisitsDecryptedSeen(names: seq<string>, visit: string -> Result<Snapshot, Error>, j: nat)
    requires j < |names| && ListVisits(names, visit).Success? && ListVisits(names, visit).value.views[j].decrypted
    ensures ListVisits(names, visit).value.current.Some? && j <= ListVisits(names, visit).value.current.value
  {
    var p := names[..|names| - 1];
    ListVisitsLast(names, visit);
    if j < |p| {
      ListVisitsDecryptedSeen(p, visit, j);
    }
  }

  /** No State after the current position is decrypted. */
  lemma {:induction false} ListVisitsCurrentIsLast(names: seq<string>, visit: string -> Result<Snapshot, Error>, j: nat)
    requires ListVisits(names, visit).Success? && ListVisits(names, visit).value.current.Some?
    requires ListVisits(names, visit).value.current.value < j < |names|
    ensures !ListVisits(names, visit).value.views[j].decrypted
  {
    var p := names[..|names| - 1];
    ListVisitsLast(names, visit);
    if j < |p| {
      ListVisitsCurrentIsLast(p, visit, j);
    }
  }

  /** One more file: a visit that succeeds adds its State. */
  lemma ListVisitsStep(names: seq<string>, visit: string -> Result<Snapshot, Error>, i: nat, l: Listing, v: Snapshot)
    requires i < |names| && ListVisits(names[..i], visit) == Success(l) && visit(names[i]) == Success(v)
    ensures ListVisits(names[..i + 1], visit) ==
      Success(Listing(l.views + [v], if v.decrypted then Some(i) else l.current))
  {
    assert names[..i + 1][..i] == names[..i];
  }

  /** Once a prefix of the loop has failed, the loop fails with that error. */
  lemma {:induction false} ListVisitsFailureSticks(names: seq<string>, visit: string -> Result<Snapshot, Error>, n: nat)
    requires n <= |names| && ListVisits(names[..n], visit).Failure?
    ensures ListVisits(names, visit) == ListVisits(names[..n], visit)
  {
    if n < |names| {
      var p := names[..|names| - 1];
      assert p[..n] == names[..n];
      ListVisitsFailureSticks(p, visit, n);
    } else {
      assert names[..n] == names;
    }
  }

  /** A failing visit ends the loop with its error. */
  lemma ListVisitsStop(names: seq<string>, visit: string -> Result<Snapshot, Error>, i: nat, l: Listing)
    requires i < |names| && ListVisits(names[..i], visit) == Success(l) && visit(names[i]).Failure?
    ensures ListVisits(names, visit) == Failure(visit(names[i]).error)
  {
    assert names[..i + 1][..i] == names[..i];
    ListVisitsFailureSticks(names, visit, i + 1);
  }

  // ---------------------------------------------------------------------
  // read_list and __init__ on values

  /** The file opens with the key. */
  predicate Unlocks(files: map<string, EnvObject>, f: string, k: string)
  {
    OpenFile(files, f, k, false).Success?
  }

  /** A file that the key does not unlock, but that is well formed, can
      always be opened locked. */
  lemma LockedFallback(files: map<string, EnvObject>, f: string, k: string)
    requires OpenFile(files, f, k, false) == Failure(InvalidKey)
    ensures OpenFile(files, f, k, true).Success?
    ensures !OpenFile(files, f, k, true).value.state.decrypted
  {
  }

  /** One pass of read_list's loop on values: the State of the file opened
      with the key or, when that fails with InvalidKey, opened locked; any
      other failure is passed on. */
  function VisitFile(files: map<string, EnvObject>, f: string, k: string): (r: Result<Snapshot, Error>)
    ensures r.Success? <==> Unlocks(files, f, k) || OpenFile(files, f, k, false) == Failure(InvalidKey)
    ensures r.Success? ==> (r.value.decrypted <==> Unlocks(files, f, k))
    ensures r.Success? ==> r.value.name == files[f].vals[NAME]
    ensures r.Success? ==> KeysOk(r.value) && (r.value.decrypted ==> Unlocked(r.value))
    ensures r.Failure? ==> r.error == OpenFile(files, f, k, false).error && r.error != InvalidKey
  {
    match OpenFile(files, f, k, false)
    case Success(l) => Success(l.state)
    case Failure(e) =>
      if e == InvalidKey then
        LockedFallback(files, f, k);
        Success(OpenFile(files, f, k, true).value.state)
      else Failure(e)
  }

  /** Opening a file only looks at that file. */
  lemma OpenFileLocal(a: map<string, EnvObject>, b: map<string, EnvObject>, f: string, k: string, readEmpty: bool)
    requires (f in a <==> f in b) && (f in a ==> a[f] == b[f])
    ensures OpenFile(a, f, k, readEmpty) == OpenFile(b, f, k, readEmpty)
  {
  }

  /** Every file opened with the key `k` against the directory `files`. */
  function Visitor(files: map<string, EnvObject>, k: string): string -> Result<Snapshot, Error>
  {
    f => VisitFile(files, f, k)
  }

  /** read_list over the globbed names, in order: a file the key unlocks
      becomes the active one (and may be rewritten with default metadata),
      a file the key does not unlock is kept locked, any other failure
      ends the listing. glob returns each path once, and a rewrite touches
      only the file itself, so every file is opened as it was in the
      directory the listing started from. */
  function ListFiles(files: map<string, EnvObject>, names: seq<string>, k: string): (r: Result<Listing, Error>)
    requires NoDup(names)
    ensures r.Failure? ==> r.error == InvalidEnvFile || r.error == InvalidToken
  {
    var r := ListVisits(names, Visitor(files, k));
    if r.Success? then r else ListVisitsFailureAt(names, Visitor(files, k)); r
  }

  /** The directory once read_list has opened `f`: rewritten when the key
      unlocks it and it lacked metadata. `dir` is the directory as earlier
      files left it, `files` the one the file was read from. */
  function NextFiles(dir: map<string, EnvObject>, files: map<string, EnvObject>, f: string, k: string): map<string, EnvObject>
  {
    if Unlocks(files, f, k) then Rewritten(dir, f, k, OpenFile(files, f, k, false).value) else dir
  }

  /** The directory as read_list leaves it after opening the files in
      order. */
  function Rewrites(files: map<string, EnvObject>, names: seq<string>, k: string): map<string, EnvObject>
  {
    if names == [] then files
    else NextFiles(Rewrites(files, names[..|names| - 1], k), files, names[|names| - 1], k)
  }

  /** The directory after a listing: the same file names, and every file
      outside the listed ones as it was. */
  predicate Untouched(before: map<string, EnvObject>, after: map<string, EnvObject>, names: seq<string>)
  {
    && after.Keys == before.Keys
    && forall f | f in before && f !in names :: after[f] == before[f]
  }

  /** Only the listed files may be rewritten, and none is created or removed. */
  lemma {:induction false} RewritesUntouched(files: map<string, EnvObject>, names: seq<string>, k: string)
    ensures Untouched(files, Rewrites(files, names, k), names)
  {
    if names != [] {
      var p := names[..|names| - 1];
      RewritesUntouched(files, p, k);
      assert forall g | g in p :: g in names;
    }
  }

  /** When read_list reaches the i-th file, earlier rewrites have left it as
      it was, so opening it in the current directory gives what opening it
      in the original one gives. */
  lemma NextFileUnchanged(files: map<string, EnvObject>, names: seq<string>, k: string, i: nat)
    requires NoDup(names) && i < |names|
    ensures var dir := Rewrites(files, names[..i], k);
      && VisitFile(dir, names[i], k) == VisitFile(files, names[i], k)
      && NextFiles(dir, dir, names[i], k) == NextFiles(dir, files, names[i], k)
  {
    var p := names[..i];
    assert names[i] !in p;
    RewritesUntouched(files, p, k);
    var dir := Rewrites(files, p, k);
    OpenFileLocal(dir, files, names[i], k, false);
    OpenFileLocal(dir, files, names[i], k, true);
  }

  /** Opening one more file rewrites it when needed. */
  lemma RewritesStep(files: map<string, EnvObject>, names: seq<string>, k: string, i: nat)
    requires i < |names|
    ensures Rewrites(files, names[..i + 1], k) == NextFiles(Rewrites(files, names[..i], k), files, names[i], k)
  {
    assert names[..i + 1][..i] == names[..i];
  }

  /** With each name listed once (as glob returns them): the listing
      succeeds exactly when every file can be visited, and it then holds, in
      glob order, each file's unlocked state or else its locked one. */
  lemma ListFilesViews(files: map<string, EnvObject>, names: seq<string>, k: string)
    requires NoDup(names)
    ensures var r := ListFiles(files, names, k);
      && (r.Success? <==> forall i | 0 <= i < |names| :: VisitFile(files, names[i], k).Success?)
      && (r.Success? ==> |r.value.views| == |names|)
      && (r.Success? ==> forall i | 0 <= i < |names| :: r.value.views[i] == VisitFile(files, names[i], k).value)
  {
    var visit := Visitor(files, k);
    if ListVisits(names, visit).Success? {
      forall i | 0 <= i < |names|
        ensures VisitFile(files, names[i], k).Success?
        ensures ListVisits(names, visit).value.views[i] == VisitFile(files, names[i], k).value
      {
        ListVisitsView(names, visit, i);
      }
    } else {
      ListVisitsFailureAt(names, visit);
    }
  }

  /** With each name listed once, the active level of a successful listing
      is a file the key unlocks, and no later file is one: it is the LAST
      file the key unlocks. */
  lemma ListFilesCurrent(files: map<string, EnvObject>, names: seq<string>, k: string)
    requires NoDup(names)
    ensures var r := ListFiles(files, names, k);
      r.Success? && r.value.current.Some? ==>
        && r.value.current.value < |names|
        && Unlocks(files, names[r.value.current.value], k)
        && forall j | r.value.current.value < j < |names| :: !Unlocks(files, names[j], k)
  {
    var visit := Visitor(files, k);
    var r := ListVisits(names, visit);
    if r.Success? && r.value.current.Some? {
      ListVisitsView(names, visit, r.value.current.value);
      forall j | r.value.current.value < j < |names|
        ensures !Unlocks(files, names[j], k)
      {
        ListVisitsView(names, visit, j);
        ListVisitsCurrentIsLast(names, visit, j);
      }
    }
  }

  /** With each name listed once, a successful listing has no active
      level exactly when the key unlocks no file. */
  lemma ListFilesNoCurrent(files: map<string, EnvObject>, names: seq<string>, k: string)
    requires NoDup(names)
    ensures var r := ListFiles(files, names, k);
      r.Success? ==> (r.value.current.None? <==> forall i | 0 <= i < |names| :: !Unlocks(files, names[i], k))
  {
    var visit := Visitor(files, k);
    var r := ListVisits(names, visit);
    if r.Success? {
      ListFilesCurrent(files, names, k);
      forall i | 0 <= i < |names| && Unlocks(files, names[i], k)
        ensures r.value.current.Some?
      {
        ListVisitsView(names, visit, i);
        ListVisitsDecryptedSeen(names, visit, i);
      }
    }
  }

  /** Every State of a listing keeps the State invariant. */
  lemma ListFilesConsistent(files: map<string, EnvObject>, names: seq<string>, k: string)
    requires NoDup(names)
    ensures var r := ListFiles(files, names, k);
      r.Success? ==> forall i | 0 <= i < |names| :: KeysOk(r.value.views[i]) && (r.value.views[i].decrypted ==> Unlocked(r.value.views[i]))
  {
    ListFilesViews(files, names, k);
  }

  /** StateList(key=key, raise_error_on_key=...) over the globbed names, with
      `env` the value of the KEY environment variable. */
  function CreateList(files: map<string, EnvObject>, names: seq<string>, key: Option<string>, env: Option<string>,
                      raiseErrorOnKey: bool): (r: Result<Listing, Error>)
    requires NoDup(names)
    ensures r.Success? && r.value.current.None? <==> key.None? && env.None? && !raiseErrorOnKey
    ensures r.Success? && r.value.current.None? ==> r.value.views == []
    ensures r.Failure? && r.error == EnvKeyNotFound ==> key.None? && env.None? && raiseErrorOnKey
    ensures r.Failure? && r.error == InvalidKey ==> key.Some? || env.Some?
    ensures key.None? && env.None? && raiseErrorOnKey ==> r == Failure(EnvKeyNotFound)
    ensures var kk := if key.Some? then key else env;
      kk.Some? && !ValidKey(kk.value) ==> r == Failure(InvalidKey)
  {
    var kk := if key.Some? then key else env;
    if kk.None? then
      if raiseErrorOnKey then Failure(EnvKeyNotFound) else Success(Listing([], None))
    else if !ValidKey(kk.value) then Failure(InvalidKey)
    else
      match ListFiles(files, names, kk.value)
      case Failure(e) => Failure(e)
      case Success(l) => if l.current.None? then Failure(DeploymentLevelNotFound) else Success(l)
  }

  /** With a valid key and each name listed once: the list fails with
      DeploymentLevelNotFound exactly when every file is listable and the
      key unlocks none of them. */
  lemma NoLevelFound(files: map<string, EnvObject>, names: seq<string>, key: string, raiseErrorOnKey: bool)
    requires ValidKey(key) && NoDup(names)
    ensures CreateList(files, names, Some(key), None, raiseErrorOnKey) == Failure(DeploymentLevelNotFound) <==>
      && (forall i | 0 <= i < |names| :: VisitFile(files, names[i], key).Success?)
      && (forall i | 0 <= i < |names| :: !Unlocks(files, names[i], key))
  {
    ListFilesViews(files, names, key);
    ListFilesNoCurrent(files, names, key);
  }

  // ---------------------------------------------------------------------
  // check_variables on values

  /** `acc` followed by the names of `ns` not seen yet, in order. */
  function AddNames(acc: seq<string>, ns: seq<string>): (r: seq<string>)
    ensures |acc| <= |r| && r[..|acc|] == acc
    ensures forall x :: x in r <==> x in acc || x in ns
    ensures NoDup(acc) ==> NoDup(r)
  {
    if ns == [] then acc
    else
      var a := AddNames(acc, ns[..|ns| - 1]);
      var x := ns[|ns| - 1];
      assert forall y :: y in ns <==> y in ns[..|ns| - 1] || y == x;
      if x in a then a else a + [x]
  }

  /** One more name offered to AddNames. */
  lemma AddNamesStep(acc: seq<string>, ns: seq<string>, j: nat)
    requires j < |ns|
    ensures var a := AddNames(acc, ns[..j]);
      AddNames(acc, ns[..j + 1]) == if ns[j] in a then a else a + [ns[j]]
  {
    assert ns[..j + 1][..j] == ns[..j];
  }

  /** The keys of the `missing` dict after the first loop: every name any
      State yields, once, in first-seen order. */
  function Collect(views: seq<Snapshot>): (r: seq<string>)
    ensures NoDup(r)
  {
    if views == [] then [] else AddNames(Collect(views[..|views| - 1]), views[|views| - 1].IterNames())
  }

  /** Collecting one more State adds the names it yields. */
  lemma CollectStep(views: seq<Snapshot>, i: nat)
    requires i < |views|
    ensures Collect(views[..i + 1]) == AddNames(Collect(views[..i]), views[i].IterNames())
  {
    assert views[..i + 1][..i] == views[..i];
  }

  /** A collected name comes from some State. */
  lemma {:induction false} CollectFrom(views: seq<Snapshot>, x: string) returns (i: nat)
    requires x in Collect(views)
    ensures i < |views| && x in views[i].IterNames()
  {
    var p := views[..|views| - 1];
    if x in Collect(p) {
      i := CollectFrom(p, x);
      assert p[i] == views[i];
    } else {
      i := |views| - 1;
    }
  }

  /** Every name a State yields is collected. */
  lemma {:induction false} CollectHas(views: seq<Snapshot>, i: nat, x: string)
    requires i < |views| && x in views[i].IterNames()
    ensures x in Collect(views)
  {
    var p := views[..|views| - 1];
    if i == |views| - 1 {
      assert x in views[|views| - 1].IterNames();
    } else {
      assert p[i] == views[i];
      CollectHas(p, i, x);
    }
  }

  /** A name is collected exactly when some State yields it. */
  lemma CollectMembers(views: seq<Snapshot>, x: string)
    ensures x in Collect(views) <==> exists i | 0 <= i < |views| :: x in views[i].IterNames()
  {
    if x in Collect(views) {
      var i := CollectFrom(views, x);
    }
    if i :| 0 <= i < |views| && x in views[i].IterNames() {
      CollectHas(views, i, x);
    }
  }

  /** The names of the States that do not contain `k`, in list order. */
  function MissingIn(k: string, views: seq<Snapshot>): (r: seq<string>)
    ensures |r| <= |views|
  {
    if views == [] then []
    else
      var v := views[|views| - 1];
      MissingIn(k, views[..|views| - 1]) + (if v.Contains(k) then [] else [v.name])
  }

  /** Nobody is reported exactly when every State contains the name. */
  lemma {:induction false} MissingInEmpty(k: string, views: seq<Snapshot>)
    ensures MissingIn(k, views) == [] <==> forall i | 0 <= i < |views| :: views[i].Contains(k)
  {
    if views != [] {
      var p := views[..|views| - 1];
      MissingInEmpty(k, p);
      assert forall i | 0 <= i < |p| :: p[i] == views[i];
    }
  }

  /** A reported name is that of a State lacking the variable. */
  lemma {:induction false} MissingInSound(k: string, views: seq<Snapshot>, x: string)
    requires x in MissingIn(k, views)
    ensures exists i | 0 <= i < |views| :: views[i].name == x && !views[i].Contains(k)
  {
    var p := views[..|views| - 1];
    var v := views[|views| - 1];
    if x in MissingIn(k, p) {
      MissingInSound(k, p, x);
      var i :| 0 <= i < |p| && p[i].name == x && !p[i].Contains(k);
      assert p[i] == views[i];
    } else {
      assert v.name == x && !v.Contains(k);
    }
  }

  /** Every State lacking the variable is reported. */
  lemma {:induction false} MissingInComplete(k: string, views: seq<Snapshot>, i: nat)
    requires i < |views| && !views[i].Contains(k)
    ensures views[i].name in MissingIn(k, views)
  {
    var p := views[..|views| - 1];
    if i < |p| {
      assert p[i] == views[i];
      MissingInComplete(k, p, i);
    }
  }

  /** The warnings logged for the keys `ks`, in order: each key some State
      lacks, with the names of those States. */
  function Reported(ks: seq<string>, views: seq<Snapshot>): (r: seq<(string, seq<string>)>)
    ensures |r| <= |ks|
  {
    if ks == [] then []
    else
      var k := ks[|ks| - 1];
      Reported(ks[..|ks| - 1], views) + (if MissingIn(k, views) != [] then [(k, MissingIn(k, views))] else [])
  }

  /** Every warning check_variables can log. */
  function Warnings(views: seq<Snapshot>): seq<(string, seq<string>)>
  {
    Reported(Collect(views), views)
  }

  /** check_variables: all warnings when not raising; when raising, the first
      warning and then VariableMissing. */
  function CheckVariablesSpec(views: seq<Snapshot>, raiseOnWarning: bool): (r: (seq<(string, seq<string>)>, Outcome<Error>))
    ensures r.1.Fail? <==> raiseOnWarning && Warnings(views) != []
    ensures r.1.Fail? ==> r.1.error == VariableMissing && r.0 == [Warnings(views)[0]]
    ensures r.1.Pass? ==> r.0 == Warnings(views)
  {
    var w := Warnings(views);
    if raiseOnWarning && w != [] then ([w[0]], Fail(VariableMissing)) else (w, Pass)
  }

  /** One more name reported. */
  lemma ReportedStep(ks: seq<string>, j: nat, views: seq<Snapshot>)
    requires j < |ks|
    ensures Reported(ks[..j + 1], views) == Reported(ks[..j], views) +
      (if MissingIn(ks[j], views) != [] then [(ks[j], MissingIn(ks[j], views))] else [])
  {
    assert ks[..j + 1][..j] == ks[..j];
  }

  /** The first name with a warning gives the first warning. */
  lemma {:induction false} ReportedFirst(ks: seq<string>, j: nat, views: seq<Snapshot>)
    requires j < |ks| && Reported(ks[..j], views) == [] && MissingIn(ks[j], views) != []
    ensures Reported(ks, views) != [] && Reported(ks, views)[0] == (ks[j], MissingIn(ks[j], views))
  {
    var p := ks[..|ks| - 1];
    var r := Reported(ks, views);
    if j == |ks| - 1 {
      assert p == ks[..j];
      assert r == [] + [(ks[j], MissingIn(ks[j], views))];
    } else {
      assert p[..j] == ks[..j] && p[j] == ks[j];
      ReportedFirst(p, j, views);
      var rp := Reported(p, views);
      assert r[..|rp|] == rp;
    }
  }

  /** With each name offered once, no name is warned about twice. */
  lemma {:induction false} ReportedOnce(ks: seq<string>, views: seq<Snapshot>)
    requires NoDup(ks)
    ensures forall i, j | 0 <= i < j < |Reported(ks, views)| :: Reported(ks, views)[i].0 != Reported(ks, views)[j].0
  {
    if ks != [] {
      var p := ks[..|ks| - 1];
      var x := ks[|ks| - 1];
      assert NoDup(p);
      assert x !in p;
      ReportedOnce(p, views);
      ReportedMembers(p, views);
    }
  }

  lemma {:induction false} ReportedMembers(ks: seq<string>, views: seq<Snapshot>)
    ensures forall w :: w in Reported(ks, views) <==> w.0 in ks && w.1 == MissingIn(w.0, views) && w.1 != []
  {
    if ks != [] {
      var p := ks[..|ks| - 1];
      ReportedMembers(p, views);
      assert forall x :: x in ks <==> x in p || x == ks[|ks| - 1];
    }
  }

  /** A warning names a key some State yields, with exactly the States that
      lack it, and every such key with at least one such State is warned about. */
  lemma WarningsSpec(views: seq<Snapshot>, w: (string, seq<string>))
    ensures w in Warnings(views) <==> w.0 in Collect(views) && w.1 == MissingIn(w.0, views) && w.1 != []
  {
    ReportedMembers(Collect(views), views);
  }

  /** The secret, which every State contains, is never reported. */
  lemma SecretNeverReported(views: seq<Snapshot>, w: (string, seq<string>))
    requires w in Warnings(views)
    ensures w.0 != SECRET_KEY
  {
    ReportedMembers(Collect(views), views);
    MissingInEmpty(SECRET_KEY, views);
  }

  lemma {:induction false} ReportedNone(ks: seq<string>, views: seq<Snapshot>)
    requires forall x | x in ks :: MissingIn(x, views) == []
    ensures Reported(ks, views) == []
  {
    if ks != [] {
      ReportedNone(ks[..|ks| - 1], views);
    }
  }

  /** The same variable names in every State. */
  predicate SameVariables(views: seq<Snapshot>)
  {
    forall i, j | 0 <= i < |views| && 0 <= j < |views| :: views[i].data.vals.Keys == views[j].data.vals.Keys
  }

  lemma NameEverywhere(views: seq<Snapshot>, x: string, i: nat)
    requires SameVariables(views) && i < |views| && x in views[i].IterNames()
    ensures MissingIn(x, views) == []
  {
    assert x == SECRET_KEY || x in views[i].data.vals.Keys;
    forall j | 0 <= j < |views|
      ensures views[j].Contains(x)
    {
      assert x == SECRET_KEY || x in views[j].data.vals.Keys;
    }
    MissingInEmpty(x, views);
  }

  /** States holding the same variable names produce no warning. */
  lemma SameVariablesNoWarning(views: seq<Snapshot>)
    requires SameVariables(views)
    ensures Warnings(views) == []
  {
    forall x | x in Collect(views)
      ensures MissingIn(x, views) == []
    {
      var i := CollectFrom(views, x);
      NameEverywhere(views, x, i);
    }
    ReportedNone(Collect(views), views);
  }

  // ---------------------------------------------------------------------
  // The class

  /** The values of a sequence of State objects. */
  function ViewsOf(ss: seq<State>): (r: seq<Snapshot>)
    reads ss
    ensures |r| == |ss|
  {
    if ss == [] then [] else ViewsOf(ss[..|ss| - 1]) + [ss[|ss| - 1].View()]
  }

  lemma {:induction false} ViewsOfPointwise(ss: seq<State>, vs: seq<Snapshot>)
    requires |ss| == |vs| && forall i | 0 <= i < |ss| :: ss[i].View() == vs[i]
    ensures ViewsOf(ss) == vs
  {
    if ss != [] {
      var n := |ss| - 1;
      ViewsOfPointwise(ss[..n], vs[..n]);
      assert vs == vs[..n] + [vs[n]];
    }
  }

  class StateList {
    const fs: FileSystem
    const key: Option<string>
    var states: seq<State>
    var current: Option<nat>

    ghost predicate Valid()
      reads this, states
    {
      && (forall s | s in states :: s.fs == fs && s.Valid())
      && (current.Some? ==> current.value < |states| && states[current.value].decrypted)
    }

    constructor Init(fs: FileSystem, key: Option<string>)
      ensures this.fs == fs && this.key == key && states == [] && current.None?
    {
      this.fs := fs;
      this.key := key;
      states := [];
      current := None;
    }

    /** StateList(key=key, raise_error_on_key=raiseErrorOnKey) over the
        names the glob returned, with `env` the KEY environment variable. */
    static method Create(fs: FileSystem, names: seq<string>, key: Option<string>, env: Option<string>,
                         raiseErrorOnKey: bool) returns (r: Result<StateList, Error>)
      requires NoDup(names)
      modifies fs
      ensures var spec := CreateList(old(fs.files), names, key, env, raiseErrorOnKey);
        && (r.Failure? <==> spec.Failure?)
        && (r.Failure? ==> r.error == spec.error)
        && (r.Success? ==>
              && fresh(r.value) && r.value.fs == fs && r.value.Valid()
              && (forall s | s in r.value.states :: fresh(s))
              && r.value.key == (if key.Some? then key else env)
              && ViewsOf(r.value.states) == spec.value.views
              && r.value.current == spec.value.current
              && fs.files == if r.value.key.Some? then Rewrites(old(fs.files), names, r.value.key.value) else old(fs.files))
    {
      var kk := if key.Some? then key else env;
      if kk.None? {
        if raiseErrorOnKey {
          // a logged warning, then the exception
          return Failure(EnvKeyNotFound);
        }
        var l := new StateList.Init(fs, None);
        return Success(l);
      }
      if !ValidKey(kk.value) {
        return Failure(InvalidKey);
      }
      var k := kk.value;
      var l := new StateList.Init(fs, kk);
      var o := l.ReadList(names, k);
      if o.Fail? {
        return Failure(o.error);
      }
      if l.current.None? {
        // no State could be decrypted
        return Failure(DeploymentLevelNotFound);
      }
      return Success(l);
    }

    /** read_list: every globbed file in order, opened with the key. */
    method ReadList(names: seq<string>, k: string) returns (o: Outcome<Error>)
      requires ValidKey(k) && NoDup(names) && states == [] && current.None?
      modifies this, fs
      ensures var spec := ListFiles(old(fs.files), names, k);
        && (o.Fail? <==> spec.Failure?)
        && (o.Fail? ==> o.error == spec.error)
        && (o.Pass? ==>
              && Valid()
              && (forall s | s in states :: fresh(s))
              && ViewsOf(states) == spec.value.views
              && current == spec.value.current
              && fs.files == Rewrites(old(fs.files), names, k))
    {
      o := ReadEach(names, k, fs.files, Visitor(fs.files, k));
      assert o.Pass? ==> forall s | s in states :: exists j | 0 <= j < |states| :: s == states[j];
    }

    /** The loop of read_list, where `visit` is what opening each file in
        the directory `files0` the listing starts from gives. */
    method ReadEach(names: seq<string>, k: string, ghost files0: map<string, EnvObject>,
                    ghost visit: string -> Result<Snapshot, Error>) returns (o: Outcome<Error>)
      requires ValidKey(k) && NoDup(names) && states == [] && current.None? && fs.files == files0
      requires forall f {:trigger VisitFile(files0, f, k)} :: visit(f) == VisitFile(files0, f, k)
      modifies this, fs
      ensures var spec := ListVisits(names, visit);
        && (o.Fail? <==> spec.Failure?)
        && (o.Fail? ==> o.error == spec.error)
        && (o.Pass? ==>
              && Valid()
              && (forall j | 0 <= j < |states| :: fresh(states[j]))
              && ViewsOf(states) == spec.value.views
              && current == spec.value.current
              && fs.files == Rewrites(files0, names, k))
    {
      ghost var listed := Listing([], None);
      var i := 0;
      while i < |names|
        invariant 0 <= i <= |names| && i == |states|
        invariant Valid()
        invariant forall j | 0 <= j < |states| :: fresh(states[j])
        invariant ListVisits(names[..i], visit) == Success(listed)
        invariant |listed.views| == |states| && forall j | 0 <= j < |states| :: states[j].View() == listed.views[j]
        invariant listed.current == current && fs.files == Rewrites(files0, names[..i], k)
      {
        var r := OpenNth(fs, names, k, i, files0, visit, listed);
        if r.Failure? {
          return Fail(r.error);
        }
        Push(r.value, i, listed.views);
        listed := Listing(listed.views + [r.value.View()], if r.value.decrypted then Some(i) else listed.current);
        i := i + 1;
      }
      assert names[..i] == names;
      ViewsOfPointwise(states, listed.views);
      return Pass;
    }

    /** The opening half of read_list's loop body: the i-th file opened
        (see OpenListed) in the directory the earlier files left, which is
        what the listing does next. */
    static method OpenNth(fs: FileSystem, names: seq<string>, k: string, i: nat, ghost files0: map<string, EnvObject>,
                          ghost visit: string -> Result<Snapshot, Error>, ghost listed: Listing)
      returns (r: Result<State, Error>)
      requires ValidKey(k) && NoDup(names) && i < |names|
      requires forall f {:trigger VisitFile(files0, f, k)} :: visit(f) == VisitFile(files0, f, k)
      requires ListVisits(names[..i], visit) == Success(listed)
      requires fs.files == Rewrites(files0, names[..i], k)
      modifies fs
      ensures r.Failure? ==> ListVisits(names, visit) == Failure(r.error)
      ensures r.Success? ==> fresh(r.value) && r.value.fs == fs && r.value.Valid()
      ensures r.Success? ==> (ListVisits(names[..i + 1], visit) ==
        Success(Listing(listed.views + [r.value.View()], if r.value.decrypted then Some(i) else listed.current)))
      ensures r.Success? ==> fs.files == Rewrites(files0, names[..i + 1], k)
    {
      NextFileUnchanged(files0, names, k, i);
      RewritesStep(files0, names, k, i);
      r := OpenListed(fs, names[i], k);
      if r.Failure? {
        ListVisitsStop(names, visit, i, listed);
      } else {
        ListVisitsStep(names, visit, i, listed, r.value.View());
      }
    }

    /** The append at the end of read_list's loop body; the State becomes the
        current one when it is decrypted. */
    method Push(s: State, i: nat, ghost views: seq<Snapshot>)
      requires Valid() && s.fs == fs && s.Valid() && i == |states|
      requires |views| == |states| && forall j | 0 <= j < |states| :: states[j].View() == views[j]
      modifies this`states, this`current
      ensures Valid()
      ensures states == old(states) + [s]
      ensures current == if s.decrypted then Some(i) else old(current)
      ensures |views| + 1 == |states| && forall j | 0 <= j < |states| :: states[j].View() == (views + [s.View()])[j]
    {
      if s.decrypted {
        current := Some(i);
      }
      states := states + [s];
    }

    /** One pass of read_list's loop: the file opened with the key, or, when
        that fails with InvalidKey, opened locked. */
    static method OpenListed(fs: FileSystem, f: string, k: string) returns (r: Result<State, Error>)
      requires ValidKey(k)
      modifies fs
      ensures r.Success? <==> VisitFile(old(fs.files), f, k).Success?
      ensures r.Failure? ==> r.error == VisitFile(old(fs.files), f, k).error && fs.files == old(fs.files)
      ensures r.Success? ==>
        && fresh(r.value) && r.value.fs == fs && r.value.key == k && r.value.Valid()
        && r.value.View() == VisitFile(old(fs.files), f, k).value
        && fs.files == NextFiles(old(fs.files), old(fs.files), f, k)
    {
      assert OpenState(fs.files, f, Some(k), true, None, false) == OpenFile(fs.files, f, k, false);
      assert OpenState(fs.files, f, Some(k), true, None, true) == OpenFile(fs.files, f, k, true);
      r := State.Open(fs, f, Some(k), true, None, false);
      if r.Failure? && r.error == InvalidKey {
        LockedFallback(fs.files, f, k);
        r := State.Open(fs, f, Some(k), true, None, true);
      }
    }

    /** get: the active State, if the key unlocked one. */
    function Get(): (r: Option<State>)
      requires Valid()
      reads this, states
      ensures r.None? <==> current.None?
      ensures r.Some? ==> r.value in states && r.value.decrypted && r.value.Valid()
      ensures r.Some? ==> current.Some? && r.value == states[current.value]
    {
      if current.None? then None else Some(states[current.value])
    }

    /** check_variables: the warnings logged, in order, and the outcome. */
    method CheckVariables(raiseOnWarning: bool) returns (warnings: seq<(string, seq<string>)>, o: Outcome<Error>)
      ensures (warnings, o) == CheckVariablesSpec(ViewsOf(states), raiseOnWarning)
    {
      warnings, o := CheckViews(ViewsOf(states), raiseOnWarning);
    }

    /** check_variables over the States' values: the three loops in turn. */
    static method CheckViews(views: seq<Snapshot>, raiseOnWarning: bool) returns (warnings: seq<(string, seq<string>)>, o: Outcome<Error>)
      ensures (warnings, o) == CheckVariablesSpec(views, raiseOnWarning)
    {
      var missing := CollectNames(views);
      missing := FillMissing(missing, views);
      warnings, o := Report(missing, views, raiseOnWarning);
    }

    /** The first loop of check_variables: every name any State yields, each
        mapped to an empty list. */
    static method CollectNames(views: seq<Snapshot>) returns (missing: Dictionary<seq<string>>)
      ensures missing.keys == Collect(views)
      ensures forall x | x in missing.vals :: missing.vals[x] == []
    {
      missing := Empty();
      var i := 0;
      while i < |views|
        invariant 0 <= i <= |views|
        invariant missing.keys == Collect(views[..i])
        invariant forall x | x in missing.vals :: missing.vals[x] == []
      {
        CollectStep(views, i);
        missing := AddAll(missing, views[i].IterNames());
        i := i + 1;
      }
      assert views[..i] == views;
    }

    /** The inner loop of the first loop: the names not yet present are added
        with an empty list. */
    static method AddAll(missing: Dictionary<seq<string>>, names: seq<string>) returns (r: Dictionary<seq<string>>)
      requires forall x | x in missing.vals :: missing.vals[x] == []
      ensures r.keys == AddNames(missing.keys, names)
      ensures forall x | x in r.vals :: r.vals[x] == []
    {
      r := missing;
      var j := 0;
      while j < |names|
        invariant 0 <= j <= |names|
        invariant r.keys == AddNames(missing.keys, names[..j])
        invariant forall x | x in r.vals :: r.vals[x] == []
      {
        AddNamesStep(missing.keys, names, j);
        assert names[j] in r.vals <==> names[j] in r.keys;
        if names[j] !in r.vals {
          r := Put(r, names[j], []);
        }
        j := j + 1;
      }
      assert names[..j] == names;
    }

    /** The second loop of check_variables: each collected name mapped to the
        names of the States that lack it. */
    static method FillMissing(missing: Dictionary<seq<string>>, views: seq<Snapshot>) returns (r: Dictionary<seq<string>>)
      ensures r.keys == missing.keys
      ensures forall n | 0 <= n < |r.keys| :: r.vals[r.keys[n]] == MissingIn(r.keys[n], views)
    {
      r := missing;
      var ks := missing.keys;
      var j := 0;
      while j < |ks|
        invariant 0 <= j <= |ks|
        invariant r.keys == ks
        invariant forall n | 0 <= n < j :: r.vals[ks[n]] == MissingIn(ks[n], views)
      {
        var temp := StatesLacking(ks[j], views);
        r := Put(r, ks[j], temp);
        j := j + 1;
      }
    }

    /** The inner loop of the second loop: the names of the States that do
        not contain `key`. */
    static method StatesLacking(key: string, views: seq<Snapshot>) returns (temp: seq<string>)
      ensures temp == MissingIn(key, views)
    {
      temp := [];
      var n := 0;
      while n < |views|
        invariant 0 <= n <= |views|
        invariant temp == MissingIn(key, views[..n])
      {
        assert views[..n + 1][..n] == views[..n];
        if !views[n].Contains(key) {
          temp := temp + [views[n].name];
        }
        n := n + 1;
      }
      assert views[..n] == views;
    }

    /** The last loop of check_variables: a warning per name some State lacks,
        stopping at the first when raising. */
    static method Report(missing: Dictionary<seq<string>>, views: seq<Snapshot>, raiseOnWarning: bool)
      returns (warnings: seq<(string, seq<string>)>, o: Outcome<Error>)
      requires missing.keys == Collect(views)
      requires forall n | 0 <= n < |missing.keys| :: missing.vals[missing.keys[n]] == MissingIn(missing.keys[n], views)
      ensures (warnings, o) == CheckVariablesSpec(views, raiseOnWarning)
    {
      var ks := missing.keys;
      warnings := [];
      var j := 0;
      while j < |ks|
        invariant 0 <= j <= |ks|
        invariant warnings == Reported(ks[..j], views)
        invariant raiseOnWarning ==> warnings == []
      {
        var key := ks[j];
        ReportedStep(ks, j, views);
        assert missing.vals[key] == MissingIn(key, views);
        if missing.vals[key] != [] {
          warnings := warnings + [(key, missing.vals[key])];
          if raiseOnWarning {
            ReportedFirst(ks, j, views);
            assert warnings == [Warnings(views)[0]];
            return warnings, Fail(VariableMissing);
          }
        }
        j := j + 1;
      }
      assert ks[..j] == ks;
      assert warnings == Warnings(views);
      o := Pass;
    }
  }
}
