/** A whole multi-file edit call and undo, over the files, the history and the replacement of text. */
module MultiEditCall {
  import opened Wrappers
  import opened MultiEdit
  import opened EditableContent
  import HistoryStore
  import Keys
  import Transactions
  import ViewCache

  const MAX_RESULT_BYTES := 8 * 1024 * 1024

  datatype EditError =
    | NoEdits
    | CannotLoad(firstEdit: nat)
    | CannotReplace(edit: nat, reason: ReplaceError)
    | ResultTooLarge
    | CommitFailed(commit: CommitError)

  ghost function EditKeys(edits: seq<Edit>): set<string> { set e | e in edits :: e.key }

  /** The meaning of a call: the edits from the i-th on, applied one after another to the files. */
  ghost function Planned(contents: map<string, string>, edits: seq<Edit>, i: nat)
    : (r: Result<map<string, string>, (nat, ReplaceError)>)
    requires i <= |edits| && EditKeys(edits) <= contents.Keys
    ensures r.Ok? ==> r.value.Keys == contents.Keys
    decreases |edits| - i
  {
    if i == |edits| then Ok(contents) else
      var e := edits[i];
      assert e.key in EditKeys(edits);
      match ReplaceText(contents[e.key], e.oldText, e.newText, e.replaceAll)
      case Err(reason) => Err((i, reason))
      case Ok(text) => Planned(contents[e.key := text], edits, i + 1)
  }

  // ----- collecting the files

  ghost predicate FirstNaming(edits: seq<Edit>, key: string, i: nat)
  {
    i < |edits| && edits[i].key == key && forall l | 0 <= l < i :: edits[l].key != key
  }

  /** The keys of the first n edits in ascending order, each with the first edit that names it. */
  ghost predicate Collected(edits: seq<Edit>, n: nat, keys: seq<string>, firsts: seq<nat>)
    requires n <= |edits|
  {
    && Keys.Ascending(keys) && |firsts| == |keys|
    && (forall i | 0 <= i < n :: edits[i].key in keys)
    && forall j | 0 <= j < |keys| :: firsts[j] < n && FirstNaming(edits, keys[j], firsts[j])
  }

  lemma CollectNext(edits: seq<Edit>, n: nat, keys: seq<string>, firsts: seq<nat>, at: nat)
    requires n < |edits| && Collected(edits, n, keys, firsts) && at <= |keys| && edits[n].key !in keys
    requires forall j | 0 <= j < at :: Keys.Below(keys[j], edits[n].key)
    requires forall j | at <= j < |keys| :: Keys.Below(edits[n].key, keys[j])
    ensures Collected(edits, n + 1, keys[..at] + [edits[n].key] + keys[at..], firsts[..at] + [n] + firsts[at..])
  {
    var keys', firsts' := keys[..at] + [edits[n].key] + keys[at..], firsts[..at] + [n] + firsts[at..];
    assert Keys.Ascending(keys') by { Keys.InsertIsAscending(keys, at, edits[n].key); }
    assert forall k | k in keys || k == edits[n].key :: k in keys' by { InInserted(keys, at, edits[n].key); }
    FirstsInserted(edits, n, keys, firsts, at, keys', firsts');
  }

  lemma FirstsInserted(edits: seq<Edit>, n: nat, keys: seq<string>, firsts: seq<nat>, at: nat, keys': seq<string>,
                       firsts': seq<nat>)
    requires n < |edits| && |firsts| == |keys| && at <= |keys| && forall i | 0 <= i < n :: edits[i].key in keys
    requires forall j | 0 <= j < |keys| :: firsts[j] < n && FirstNaming(edits, keys[j], firsts[j])
    requires keys' == keys[..at] + [edits[n].key] + keys[at..] && edits[n].key !in keys
    requires firsts' == firsts[..at] + [n] + firsts[at..]
    ensures forall j | 0 <= j < |keys'| :: firsts'[j] < n + 1 && FirstNaming(edits, keys'[j], firsts'[j])
  {
    forall j | 0 <= j < |keys'|
      ensures firsts'[j] < n + 1 && FirstNaming(edits, keys'[j], firsts'[j])
    {
      if j != at {
        var i := if j < at then j else j - 1;
        assert keys'[j] == keys[i] && firsts'[j] == firsts[i];
      }
    }
  }

  lemma InInserted(keys: seq<string>, at: nat, key: string)
    requires at <= |keys|
    ensures forall k | k in keys || k == key :: k in keys[..at] + [key] + keys[at..]
  {
    assert keys == keys[..at] + keys[at..];
  }

  method CollectKeys(edits: seq<Edit>) returns (keys: seq<string>, firsts: seq<nat>)
    ensures Collected(edits, |edits|, keys, firsts)
  {
    keys, firsts := [], [];
    for n := 0 to |edits|
      invariant Collected(edits, n, keys, firsts)
    {
      var at := Keys.Locate(keys, edits[n].key);
      if at == |keys| || keys[at] != edits[n].key {
        CollectNext(edits, n, keys, firsts, at);
        keys, firsts := keys[..at] + [edits[n].key] + keys[at..], firsts[..at] + [n] + firsts[at..];
      }
    }
  }

  /** The files to edit, in key order, as loaded. */
  ghost predicate Loaded(files: seq<File>, keys: seq<string>, firsts: seq<nat>, contents: map<string, string>,
                         faults: Faults)
  {
    && |files| == |keys| == |firsts|
    && forall j | 0 <= j < |files| ::
         files[j].key == keys[j] && files[j].firstEdit == firsts[j] && files[j].after == files[j].before
         && Holds(contents, keys[j], files[j].before) && files[j].hasPermissions == faults.local(keys[j])
  }

  /** All files are there and can be read. */
  ghost predicate Readable(keys: seq<string>, contents: map<string, string>, faults: Faults)
  {
    forall k | k in keys :: k in contents && faults.loads(k)
  }

  ghost predicate FirstUnreadable(keys: seq<string>, contents: map<string, string>, faults: Faults, j: nat)
  {
    j < |keys| && !(keys[j] in contents && faults.loads(keys[j])) && Readable(keys[..j], contents, faults)
  }

  method LoadFiles(disk: Disk, keys: seq<string>, firsts: seq<nat>, faults: Faults) returns (r: Result<seq<File>, nat>)
    requires |keys| == |firsts|
    ensures r.Ok? <==> Readable(keys, disk.contents, faults)
    ensures r.Ok? ==> Loaded(r.value, keys, firsts, disk.contents, faults)
    ensures r.Err? ==>
              exists j :: 0 <= j < |keys| && FirstUnreadable(keys, disk.contents, faults, j) && r.error == firsts[j]
  {
    var files: seq<File> := [];
    for j := 0 to |keys|
      invariant Loaded(files, keys[..j], firsts[..j], disk.contents, faults)
      invariant Readable(keys[..j], disk.contents, faults)
    {
      var text := disk.Read(keys[j], faults.loads(keys[j]));
      if text.Err? {
        assert keys[j] in keys && FirstUnreadable(keys, disk.contents, faults, j);
        return Err(firsts[j]);
      }
      files := files + [File(keys[j], firsts[j], text.value, text.value, faults.local(keys[j]))];
    }
    assert keys[..|keys|] == keys && firsts[..|keys|] == firsts;
    r := Ok(files);
  }

  // ----- which file cannot be loaded

  /** Every file that an edit names is there and can be read. */
  ghost predicate CanLoad(edits: seq<Edit>, contents: map<string, string>, faults: Faults)
  {
    forall e | e in edits :: e.key in contents && faults.loads(e.key)
  }

  /** Edit i is the first to name the first file, in key order, that is not there or cannot be read. */
  ghost predicate CannotLoadAt(edits: seq<Edit>, contents: map<string, string>, faults: Faults, i: nat)
  {
    && i < |edits| && FirstNaming(edits, edits[i].key, i) && !(edits[i].key in contents && faults.loads(edits[i].key))
    && forall e | e in edits && !(e.key in contents && faults.loads(e.key)) ::
         e.key == edits[i].key || Keys.Below(edits[i].key, e.key)
  }

  lemma CannotLoadIs(edits: seq<Edit>, keys: seq<string>, firsts: seq<nat>, contents: map<string, string>,
                     faults: Faults, j: nat)
    requires Collected(edits, |edits|, keys, firsts) && FirstUnreadable(keys, contents, faults, j)
    ensures !CanLoad(edits, contents, faults) && CannotLoadAt(edits, contents, faults, firsts[j])
  {
    assert FirstNaming(edits, keys[j], firsts[j]) && edits[firsts[j]] in edits;
    forall l | 0 <= l < j
      ensures keys[l] in contents && faults.loads(keys[l])
    {
      assert keys[..j][l] in keys[..j];
    }
    forall e | e in edits && !(e.key in contents && faults.loads(e.key))
      ensures e.key == keys[j] || Keys.Below(keys[j], e.key)
    {
      var i :| 0 <= i < |edits| && edits[i] == e;
      var l :| 0 <= l < |keys| && keys[l] == edits[i].key;
    }
  }

  lemma CanLoadIs(edits: seq<Edit>, keys: seq<string>, firsts: seq<nat>, contents: map<string, string>, faults: Faults)
    requires Collected(edits, |edits|, keys, firsts)
    ensures CanLoad(edits, contents, faults) <==> Readable(keys, contents, faults)
  {
    NamedKeys(edits, keys, firsts);
    forall e | e in edits
      ensures e.key in keys
    {
      assert e.key in EditKeys(edits);
    }
    forall k | k in keys
      ensures exists e :: e in edits && e.key == k
    {
      assert k in EditKeys(edits);
    }
  }

  // ----- planning in memory

  /** The files as loaded, with their planned content. */
  ghost predicate Staged(files: seq<File>, keys: seq<string>, firsts: seq<nat>, contents: map<string, string>,
                         staged: map<string, string>, faults: Faults)
  {
    && |files| == |keys| == |firsts|
    && forall j | 0 <= j < |files| ::
         files[j].key == keys[j] && files[j].firstEdit == firsts[j] && files[j].hasPermissions == faults.local(keys[j])
         && Holds(contents, keys[j], files[j].before) && Holds(staged, keys[j], files[j].after)
  }

  /** Applies the edits to the staged contents in the order they are listed. */
  method PlanEdits(files: seq<File>, edits: seq<Edit>, keys: seq<string>, ghost firsts: seq<nat>,
                   ghost contents: map<string, string>, ghost faults: Faults)
    returns (r: Result<seq<File>, (nat, ReplaceError)>, ghost staged: map<string, string>)
    requires Loaded(files, keys, firsts, contents, faults) && Collected(edits, |edits|, keys, firsts)
             && EditKeys(edits) <= contents.Keys
    ensures r.Err? ==> Planned(contents, edits, 0) == Err(r.error)
    ensures r.Ok? ==> Planned(contents, edits, 0) == Ok(staged) && staged.Keys == contents.Keys
                      && Staged(r.value, keys, firsts, contents, staged, faults)
  {
    var current := files;
    staged := contents;
    for i := 0 to |edits|
      invariant staged.Keys == contents.Keys && Staged(current, keys, firsts, contents, staged, faults)
      invariant Planned(contents, edits, 0) == Planned(staged, edits, i)
    {
      var e := edits[i];
      assert e.key in keys;
      var at := Keys.Locate(keys, e.key);
      var text := Replace(current[at].after, e.oldText, e.newText, e.replaceAll);
      if text.Err? {
        return Err((i, text.error)), staged;
      }
      StageNext(current, keys, firsts, contents, staged, at, text.value, faults);
      current := current[at := current[at].(after := text.value)];
      staged := staged[e.key := text.value];
    }
    r := Ok(current);
  }

  lemma StageNext(files: seq<File>, keys: seq<string>, firsts: seq<nat>, contents: map<string, string>,
                  staged: map<string, string>, at: nat, text: string, faults: Faults)
    requires Staged(files, keys, firsts, contents, staged, faults) && Keys.Ascending(keys) && at < |keys|
    ensures Staged(files[at := files[at].(after := text)], keys, firsts, contents, staged[keys[at] := text], faults)
  {
    Keys.AscendingIsDistinct(keys);
  }

  // ----- the call as a function of what it loads

  /** The part of the files that the call loads. */
  function ContentsOf(keys: seq<string>, texts: Transactions.Texts): map<string, string>
  {
    map k | k in keys && k in texts && texts[k].Some? :: texts[k].value
  }

  /** The files with the contents they were loaded with and those planned for them. */
  function FilesOf(keys: seq<string>, firsts: seq<nat>, contents: map<string, string>, staged: map<string, string>,
                   faults: Faults): (files: seq<File>)
    requires |keys| == |firsts| && forall k | k in keys :: k in contents && k in staged
    ensures |files| == |keys|
    ensures forall j | 0 <= j < |keys| ::
              files[j] == File(keys[j], firsts[j], contents[keys[j]], staged[keys[j]], faults.local(keys[j]))
  {
    seq(|keys|, j requires 0 <= j < |keys| =>
      File(keys[j], firsts[j], contents[keys[j]], staged[keys[j]], faults.local(keys[j])))
  }

  lemma CollectedCovers(edits: seq<Edit>, keys: seq<string>, firsts: seq<nat>, contents: map<string, string>)
    requires Collected(edits, |edits|, keys, firsts) && forall k | k in keys :: k in contents
    ensures EditKeys(edits) <= contents.Keys
  {
  }

  /** What a call writes that has planned these files: nothing if its answer would be too large. */
  ghost function WritesOf(files: seq<File>, renderedBytes: seq<File> -> nat, faults: Faults): seq<Transactions.Write>
  {
    if renderedBytes(files) > MAX_RESULT_BYTES then [] else CommitWrites(files, faults, 0)
  }

  /** What a call leaves in the files, given what it loads. */
  ghost function CallWrites(edits: seq<Edit>, keys: seq<string>, firsts: seq<nat>, renderedBytes: seq<File> -> nat,
                            faults: Faults, texts: Transactions.Texts): seq<Transactions.Write>
    requires Collected(edits, |edits|, keys, firsts)
  {
    var contents := ContentsOf(keys, texts);
    if edits == [] || !Readable(keys, contents, faults) then [] else
      CollectedCovers(edits, keys, firsts, contents);
      var planned := Planned(contents, edits, 0);
      if planned.Err? then [] else
        WritesOf(FilesOf(keys, firsts, contents, planned.value, faults), renderedBytes, faults)
  }

  /** The call among other calls: it takes its files in key order, and what it writes depends on what it
      loads and on what befalls its writes. */
  ghost function EditCall(edits: seq<Edit>, keys: seq<string>, firsts: seq<nat>, renderedBytes: seq<File> -> nat,
                          faults: Faults): Transactions.Call
    requires Collected(edits, |edits|, keys, firsts)
  {
    Transactions.Call(keys, texts => CallWrites(edits, keys, firsts, renderedBytes, faults, texts), true)
  }

  /** Edits do to a part of the files that holds all they name what they do to the whole. */
  lemma {:induction false} PlannedInPart(full: map<string, string>, part: map<string, string>, edits: seq<Edit>, i: nat)
    requires i <= |edits| && EditKeys(edits) <= part.Keys <= full.Keys && forall k | k in part :: full[k] == part[k]
    ensures match Planned(part, edits, i)
            case Err(e) => Planned(full, edits, i) == Err(e)
            case Ok(staged) => staged.Keys == part.Keys && Planned(full, edits, i) == Ok(full + staged)
    decreases |edits| - i
  {
    if i == |edits| {
      assert full + part == full;
    } else {
      var e := edits[i];
      assert e.key in EditKeys(edits);
      var text := ReplaceText(part[e.key], e.oldText, e.newText, e.replaceAll);
      if text.Ok? {
        PlannedInPart(full[e.key := text.value], part[e.key := text.value], edits, i + 1);
        if Planned(part, edits, i).Ok? {
          var staged := Planned(part, edits, i).value;
          assert full[e.key := text.value] + staged == full + staged;
        }
      }
    }
  }

  ghost predicate FileKeysAscend(files: seq<File>)
  {
    forall i, j | 0 <= i < j < |files| :: Keys.Below(files[i].key, files[j].key)
  }

  // ----- the call

  /** The part of the files that a call loads. */
  ghost function LoadedPart(contents: map<string, string>, keys: seq<string>): map<string, string>
  {
    ContentsOf(keys, Transactions.Loaded(contents, keys))
  }

  lemma LoadedPartIs(contents: map<string, string>, keys: seq<string>)
    ensures forall k :: k in LoadedPart(contents, keys) <==> k in keys && k in contents
    ensures forall k | k in LoadedPart(contents, keys) :: LoadedPart(contents, keys)[k] == contents[k]
  {
  }

  /** The part holds all files that the edits name, with their contents. */
  ghost predicate IsPart(part: map<string, string>, contents: map<string, string>, edits: seq<Edit>, keys: seq<string>)
  {
    && (forall k :: k in part <==> k in keys) && (forall k :: k in EditKeys(edits) <==> k in keys)
    && EditKeys(edits) <= part.Keys <= contents.Keys && forall k | k in part :: contents[k] == part[k]
  }

  /** What was loaded is loaded from the part too, and the edits name nothing else. */
  lemma LoadedInPart(files: seq<File>, edits: seq<Edit>, keys: seq<string>, firsts: seq<nat>,
                     contents: map<string, string>, faults: Faults)
    requires Collected(edits, |edits|, keys, firsts) && Loaded(files, keys, firsts, contents, faults)
    ensures Loaded(files, keys, firsts, LoadedPart(contents, keys), faults)
    ensures IsPart(LoadedPart(contents, keys), contents, edits, keys)
  {
    LoadedPartIs(contents, keys);
    CollectedKeys(edits, keys, firsts, files, contents, faults);
  }

  /** The files planned are those of the call as a function. */
  lemma PlannedFiles(files: seq<File>, keys: seq<string>, firsts: seq<nat>, part: map<string, string>,
                     staged: map<string, string>, faults: Faults)
    requires Staged(files, keys, firsts, part, staged, faults) && forall k | k in keys :: k in part && k in staged
    ensures files == FilesOf(keys, firsts, part, staged, faults)
  {
    forall j | 0 <= j < |files|
      ensures files[j] == FilesOf(keys, firsts, part, staged, faults)[j]
    {
    }
  }

  /** The writes of a call whose planning has come out as given. */
  lemma WritesAsPlanned(edits: seq<Edit>, keys: seq<string>, firsts: seq<nat>, renderedBytes: seq<File> -> nat,
                        faults: Faults, contents: map<string, string>, part: map<string, string>)
    requires Collected(edits, |edits|, keys, firsts) && edits != [] && Readable(keys, contents, faults)
    requires part == LoadedPart(contents, keys) && IsPart(part, contents, edits, keys)
    ensures var planned := Planned(part, edits, 0);
            && (planned.Ok? ==> planned.value.Keys == part.Keys)
            && CallWrites(edits, keys, firsts, renderedBytes, faults, Transactions.Loaded(contents, keys))
               == if planned.Err? then []
                  else WritesOf(FilesOf(keys, firsts, part, planned.value, faults), renderedBytes, faults)
  {
    assert Readable(keys, part, faults);
  }

  lemma UnreadableWrites(edits: seq<Edit>, keys: seq<string>, firsts: seq<nat>, renderedBytes: seq<File> -> nat,
                         faults: Faults, contents: map<string, string>)
    requires Collected(edits, |edits|, keys, firsts) && (edits == [] || !Readable(keys, contents, faults))
    ensures CallWrites(edits, keys, firsts, renderedBytes, faults, Transactions.Loaded(contents, keys)) == []
  {
    LoadedPartIs(contents, keys);
    if edits != [] {
      var k :| k in keys && !(k in contents && faults.loads(k));
      assert !(k in LoadedPart(contents, keys) && faults.loads(k));
    }
  }

  /** All files can be loaded, and no edit fails. */
  ghost predicate WellPlanned(edits: seq<Edit>, contents: map<string, string>, faults: Faults)
  {
    CanLoad(edits, contents, faults) && Planned(contents, edits, 0).Ok?
  }

  /** The files as they are loaded and as the edits, applied one after another, leave them; none if an edit
      fails. */
  ghost function PlannedFilesOf(edits: seq<Edit>, keys: seq<string>, firsts: seq<nat>, contents: map<string, string>,
                                faults: Faults): seq<File>
    requires Collected(edits, |edits|, keys, firsts) && EditKeys(edits) <= contents.Keys
  {
    NamedKeys(edits, keys, firsts);
    var planned := Planned(contents, edits, 0);
    if planned.Err? then [] else FilesOf(keys, firsts, contents, planned.value, faults)
  }

  lemma PlannedFilesAre(files: seq<File>, edits: seq<Edit>, keys: seq<string>, firsts: seq<nat>,
                        contents: map<string, string>, part: map<string, string>, staged: map<string, string>,
                        faults: Faults)
    requires Collected(edits, |edits|, keys, firsts) && IsPart(part, contents, edits, keys)
    requires staged.Keys == part.Keys && Planned(contents, edits, 0) == Ok(contents + staged)
    requires files == FilesOf(keys, firsts, part, staged, faults)
    ensures files == PlannedFilesOf(edits, keys, firsts, contents, faults)
  {
    FilesOfPart(keys, firsts, contents, part, staged, faults);
  }

  /** The files to commit, if the edits can be planned and their result is not too large. */
  method PlanCall(disk: Disk, edits: seq<Edit>, keys: seq<string>, firsts: seq<nat>, renderedBytes: seq<File> -> nat,
                  faults: Faults)
    returns (r: Result<seq<File>, EditError>, ghost staged: map<string, string>)
    requires Collected(edits, |edits|, keys, firsts) && edits != []
    ensures var w := CallWrites(edits, keys, firsts, renderedBytes, faults, Transactions.Loaded(disk.contents, keys));
            w == if r.Ok? then CommitWrites(r.value, faults, 0) else []
    ensures r.Err? ==> !r.error.NoEdits? && !r.error.CommitFailed?
    ensures r.Err? && r.error.CannotLoad? <==> !CanLoad(edits, disk.contents, faults)
    ensures r.Err? && r.error.CannotLoad? ==> CannotLoadAt(edits, disk.contents, faults, r.error.firstEdit)
    ensures r.Err? && r.error.CannotReplace? <==>
              CanLoad(edits, disk.contents, faults) && Planned(disk.contents, edits, 0).Err?
    ensures r.Err? && r.error.CannotReplace? ==>
              Planned(disk.contents, edits, 0) == Err((r.error.edit, r.error.reason))
    ensures r.Err? && r.error.ResultTooLarge? ==>
              CanLoad(edits, disk.contents, faults)
              && renderedBytes(PlannedFilesOf(edits, keys, firsts, disk.contents, faults)) > MAX_RESULT_BYTES
    ensures r.Ok? ==>
              && CanLoad(edits, disk.contents, faults)
              && r.value == PlannedFilesOf(edits, keys, firsts, disk.contents, faults)
              && renderedBytes(r.value) <= MAX_RESULT_BYTES
    ensures r.Ok? ==>
              var part := LoadedPart(disk.contents, keys);
              && IsPart(part, disk.contents, edits, keys) && staged.Keys == part.Keys
              && Staged(r.value, keys, firsts, part, staged, faults)
              && Planned(disk.contents, edits, 0) == Ok(disk.contents + staged)
  {
    staged := map[];
    ghost var contents, part := disk.contents, LoadedPart(disk.contents, keys);
    var loaded := LoadFiles(disk, keys, firsts, faults);
    CanLoadIs(edits, keys, firsts, contents, faults);
    if loaded.Err? {
      ghost var j :| 0 <= j < |keys| && FirstUnreadable(keys, contents, faults, j) && loaded.error == firsts[j];
      CannotLoadIs(edits, keys, firsts, contents, faults, j);
      UnreadableWrites(edits, keys, firsts, renderedBytes, faults, contents);
      return Err(CannotLoad(loaded.error)), staged;
    }
    LoadedInPart(loaded.value, edits, keys, firsts, contents, faults);
    WritesAsPlanned(edits, keys, firsts, renderedBytes, faults, contents, part);
    PlannedInPart(contents, part, edits, 0);
    var planned, result := PlanEdits(loaded.value, edits, keys, firsts, part, faults);
    if planned.Err? {
      return Err(CannotReplace(planned.error.0, planned.error.1)), staged;
    }
    staged := result;
    PlannedFiles(planned.value, keys, firsts, part, staged, faults);
    PlannedFilesAre(planned.value, edits, keys, firsts, contents, part, staged, faults);
    if renderedBytes(planned.value) > MAX_RESULT_BYTES {
      return Err(ResultTooLarge), staged;
    }
    r := Ok(planned.value);
  }

  /** Commits the planned files. */
  method CommitPlanned(disk: Disk, history: HistoryStore.Store, cache: ViewCache.Cache?, files: seq<File>,
                       faults: Faults,
                       ghost edits: seq<Edit>, ghost keys: seq<string>, ghost firsts: seq<nat>,
                       ghost part: map<string, string>, ghost staged: map<string, string>)
    returns (r: Result<(), CommitError>)
    requires HistoryStore.Valid(history.State()) && Keys.Ascending(keys)
    requires IsPart(part, disk.contents, edits, keys) && staged.Keys == part.Keys
    requires Staged(files, keys, firsts, part, staged, faults)
    modifies disk, history, cache
    ensures HistoryStore.Valid(history.State())
    ensures cache != null ==>
              cache.entries == if r.Ok? then NotedAll(old(cache.entries), files, |files|) else old(cache.entries)
    ensures disk.log == old(disk.log) + CommitWrites(files, faults, 0)
    ensures disk.contents == Transactions.PutAll(old(disk.contents), disk.log[|old(disk.log)|..])
    ensures DistinctKeys(files) && KeySet(files) == EditKeys(edits) && WrittenUpTo(old(disk.contents), files, 0)
    ensures r.Ok? <==> NoneFails(files, faults, |files|)
    ensures r.Err? ==> exists i :: FailsAt(files, faults, i) && r.error == CommitFault(files, faults, i)
    ensures r.Ok? ==> disk.contents == old(disk.contents) + staged && WrittenUpTo(disk.contents, files, |files|)
                      && history.State() == RecordAll(old(history.State()), SnapshotsOf(files))
    ensures r.Err? ==> history.State() == old(history.State())
                       && OthersKept(old(disk.contents), disk.contents, EditKeys(edits))
                       && CommitLeft(old(disk.contents), disk.contents, EditKeys(edits), r.error)
  {
    ghost var contents := disk.contents;
    StagedFiles(files, edits, keys, firsts, contents, part, staged, faults);
    r := Commit(disk, history, cache, files, faults);
    if r.Ok? {
      AllWritten(files, keys, contents, staged, disk.contents);
    } else {
      LeftAfter(contents, disk.contents, files, r.error);
    }
  }

  lemma LeftAfter(contents: map<string, string>, now: map<string, string>, files: seq<File>, error: CommitError)
    requires WrittenUpTo(contents, files, 0)
    requires BroughtBack(now, files, FailuresOf(error)) && (error.RollbackFailed? ==> error.failures != [])
    ensures KeySet(files) <= contents.Keys && CommitLeft(contents, now, KeySet(files), error)
  {
  }

  lemma NothingWritten(contents: map<string, string>, log: seq<Transactions.Write>)
    ensures log + [] == log && contents == Transactions.PutAll(contents, log[|log|..])
  {
    assert log[|log|..] == [];
  }

  /** A multi-file edit. A call that succeeds leaves the files as its edits, applied one after another
      in the order listed, would, and records the earlier content of each changed file. A call that
      fails before the commit changes nothing; a failed commit leaves the earlier contents, except
      for the files it names. In any case the writes are the function CallWrites of what was loaded. */
  method ExecuteEdits(disk: Disk, history: HistoryStore.Store, cache: ViewCache.Cache?, edits: seq<Edit>,
                      renderedBytes: seq<File> -> nat, faults: Faults)
    returns (r: Result<(), EditError>, ghost files: seq<File>, ghost keys: seq<string>, ghost firsts: seq<nat>)
    requires HistoryStore.Valid(history.State())
    modifies disk, history, cache
    ensures HistoryStore.Valid(history.State())
    ensures cache != null ==>
              cache.entries == if r.Ok? then NotedAll(old(cache.entries), files, |files|) else old(cache.entries)
    ensures r == Err(NoEdits) <==> edits == []
    ensures r.Ok? ==>
              EditKeys(edits) <= old(disk.contents).Keys && Planned(old(disk.contents), edits, 0) == Ok(disk.contents)
    ensures r.Ok? ==> history.State() == RecordAll(old(history.State()), SnapshotsOf(files))
    ensures r.Ok? ==>
              DistinctKeys(files) && KeySet(files) == EditKeys(edits) && WrittenUpTo(old(disk.contents), files, 0)
              && WrittenUpTo(disk.contents, files, |files|)
    ensures Collected(edits, |edits|, keys, firsts)
    ensures disk.log == old(disk.log) + CallWrites(edits, keys, firsts, renderedBytes, faults,
                                                   Transactions.Loaded(old(disk.contents), keys))
    ensures disk.contents == Transactions.PutAll(old(disk.contents), disk.log[|old(disk.log)|..])
    ensures r.Err? ==> history.State() == old(history.State())
    ensures r.Err? && !r.error.CommitFailed? ==> disk.contents == old(disk.contents)
    ensures r.Err? && r.error.CannotLoad? <==> !CanLoad(edits, old(disk.contents), faults)
    ensures r.Err? && r.error.CannotLoad? ==> CannotLoadAt(edits, old(disk.contents), faults, r.error.firstEdit)
    ensures r.Err? && r.error.CannotReplace? <==>
              CanLoad(edits, old(disk.contents), faults) && Planned(old(disk.contents), edits, 0).Err?
    ensures r.Err? && r.error.CannotReplace? ==>
              Planned(old(disk.contents), edits, 0) == Err((r.error.edit, r.error.reason))
    ensures r.Err? && r.error.ResultTooLarge? <==>
              edits != [] && WellPlanned(edits, old(disk.contents), faults)
              && renderedBytes(PlannedFilesOf(edits, keys, firsts, old(disk.contents), faults)) > MAX_RESULT_BYTES
    ensures r.Ok? || (r.Err? && r.error.CommitFailed?) <==>
              edits != [] && WellPlanned(edits, old(disk.contents), faults)
              && renderedBytes(PlannedFilesOf(edits, keys, firsts, old(disk.contents), faults)) <= MAX_RESULT_BYTES
    ensures r.Ok? || (r.Err? && r.error.CommitFailed?) ==>
              WellPlanned(edits, old(disk.contents), faults)
              && files == PlannedFilesOf(edits, keys, firsts, old(disk.contents), faults)
    ensures r.Ok? ==> NoneFails(files, faults, |files|)
    ensures r.Err? && r.error.CommitFailed? ==>
              exists i :: FailsAt(files, faults, i) && r.error.commit == CommitFault(files, faults, i)
    ensures r.Err? && r.error.CommitFailed? ==>
              EditKeys(edits) <= old(disk.contents).Keys
              && OthersKept(old(disk.contents), disk.contents, EditKeys(edits))
              && CommitLeft(old(disk.contents), disk.contents, EditKeys(edits), r.error.commit)
  {
    files := [];
    var order, numbers := CollectKeys(edits);
    keys, firsts := order, numbers;
    ghost var contents := disk.contents;
    NothingWritten(contents, disk.log);
    if edits == [] {
      UnreadableWrites(edits, keys, firsts, renderedBytes, faults, contents);
      return Err(NoEdits), files, keys, firsts;
    }
    var planned, staged := PlanCall(disk, edits, order, numbers, renderedBytes, faults);
    if planned.Err? {
      return Err(planned.error), files, keys, firsts;
    }
    files := planned.value;
    var committed := CommitPlanned(disk, history, cache, planned.value, faults, edits, keys, firsts,
                                   LoadedPart(contents, keys), staged);
    r := if committed.Err? then Err(CommitFailed(committed.error)) else Ok(());
  }

  /** Every file of the call holds its earlier content, except those named as failed. */
  ghost predicate CommitLeft(before: map<string, string>, now: map<string, string>, keys: set<string>,
                             error: CommitError)
    requires keys <= before.Keys
  {
    var failures := FailuresOf(error);
    && (error.RollbackFailed? ==> failures != [])
    && (forall k | k in failures :: k in keys)
    && forall k | k in keys :: k in failures || Holds(now, k, before[k])
  }

  lemma CollectedKeys(edits: seq<Edit>, keys: seq<string>, firsts: seq<nat>, files: seq<File>,
                      contents: map<string, string>, faults: Faults)
    requires Collected(edits, |edits|, keys, firsts) && Loaded(files, keys, firsts, contents, faults)
    ensures forall k :: k in EditKeys(edits) <==> k in keys
    ensures EditKeys(edits) <= contents.Keys
  {
    forall k | k in keys
      ensures k in EditKeys(edits) && k in contents
    {
      var j :| 0 <= j < |keys| && keys[j] == k;
      assert FirstNaming(edits, keys[j], firsts[j]) && edits[firsts[j]] in edits;
      assert Holds(contents, keys[j], files[j].before);
    }
  }

  lemma StagedFiles(files: seq<File>, edits: seq<Edit>, keys: seq<string>, firsts: seq<nat>,
                    contents: map<string, string>, part: map<string, string>, staged: map<string, string>,
                    faults: Faults)
    requires Keys.Ascending(keys) && Staged(files, keys, firsts, part, staged, faults)
    requires forall k :: k in EditKeys(edits) <==> k in keys
    requires part.Keys <= contents.Keys && forall k | k in part :: contents[k] == part[k]
    ensures DistinctKeys(files) && KeySet(files) == EditKeys(edits) && WrittenUpTo(contents, files, 0)
            && FileKeysAscend(files)
  {
    Keys.AscendingIsDistinct(keys);
    forall k
      ensures k in KeySet(files) <==> k in keys
    {
      if k in keys {
        var j :| 0 <= j < |keys| && keys[j] == k;
        assert files[j] in files;
      }
    }
    forall j | 0 <= j < |files|
      ensures Holds(contents, files[j].key, files[j].before)
    {
      assert Holds(part, keys[j], files[j].before);
    }
  }

  lemma AllWritten(files: seq<File>, keys: seq<string>, contents: map<string, string>, staged: map<string, string>,
                   now: map<string, string>)
    requires |files| == |keys| && forall k :: k in staged <==> k in keys
    requires forall j | 0 <= j < |files| :: files[j].key == keys[j] && Holds(staged, keys[j], files[j].after)
    requires WrittenUpTo(now, files, |files|) && OthersKept(contents, now, KeySet(files))
    ensures now == contents + staged
  {
    forall k
      ensures k in now <==> k in contents + staged
      ensures k in now ==> now[k] == (contents + staged)[k]
    {
      if k in keys {
        var j :| 0 <= j < |keys| && keys[j] == k;
        assert Holds(now, files[j].key, files[j].after);
      } else {
        assert k !in KeySet(files);
      }
    }
  }

  // ----- among other calls

  lemma AttemptIsShort(key: string, content: string, outcome: Outcome)
    ensures var w := Attempt(key, content, outcome); |w| <= 1 && forall x | x in w :: x.key == key
  {
  }

  /** No restore writes more than one file, once. */
  lemma {:induction false} BackWritesAreShort(files: seq<File>, faults: Faults, attempted: seq<nat>, n: nat)
    requires n <= |attempted| && forall i | i in attempted :: i < |files|
    ensures var w := BackWrites(files, faults, attempted, n);
            |w| <= n && forall x | x in w :: exists f :: f in files && f.key == x.key
  {
    if n > 0 {
      assert attempted[n - 1] in attempted;
      var file := files[attempted[n - 1]];
      AttemptIsShort(file.key, file.before, faults.restores(file.key));
      BackWritesAreShort(files, faults, attempted, n - 1);
      assert file in files;
    }
  }

  lemma {:induction false} ChangedAreFew(files: seq<File>, n: nat)
    requires n <= |files|
    ensures |Changed(files, n)| <= n
  {
    if n > 0 {
      ChangedAreFew(files, n - 1);
    }
  }

  /** A commit makes at most two writes per file, to its files only. */
  lemma {:induction false} CommitWritesAreShort(files: seq<File>, faults: Faults, i: nat)
    requires i <= |files|
    ensures var w := CommitWrites(files, faults, i);
            |w| <= 2 * |files| - i && forall x | x in w :: exists f :: f in files && f.key == x.key
    decreases |files| - i
  {
    if i < |files| {
      CommitWritesAreShort(files, faults, i + 1);
      var file, attempted := files[i], Changed(files, i + 1);
      assert file in files;
      AttemptIsShort(file.key, file.after, faults.writes(file.key));
      ChangedAreFew(files, i + 1);
      BackWritesAreShort(files, faults, attempted, |attempted|);
    }
  }

  /** A call writes only files that it locked, whatever it loads and whatever befalls it. */
  lemma EditCallIsWellFormed(edits: seq<Edit>, keys: seq<string>, firsts: seq<nat>, renderedBytes: seq<File> -> nat,
                             faults: Faults)
    requires Collected(edits, |edits|, keys, firsts)
    ensures Transactions.WellFormed(EditCall(edits, keys, firsts, renderedBytes, faults))
  {
    forall texts
      ensures var w := CallWrites(edits, keys, firsts, renderedBytes, faults, texts);
              |w| <= 2 * |keys| && forall i | 0 <= i < |w| :: w[i].key in keys
    {
      CallWritesAreShort(edits, keys, firsts, renderedBytes, faults, texts);
    }
  }

  lemma CallWritesAreShort(edits: seq<Edit>, keys: seq<string>, firsts: seq<nat>, renderedBytes: seq<File> -> nat,
                           faults: Faults, texts: Transactions.Texts)
    requires Collected(edits, |edits|, keys, firsts)
    ensures var w := CallWrites(edits, keys, firsts, renderedBytes, faults, texts);
            |w| <= 2 * |keys| && forall i | 0 <= i < |w| :: w[i].key in keys
  {
    var contents := ContentsOf(keys, texts);
    var w := CallWrites(edits, keys, firsts, renderedBytes, faults, texts);
    if edits != [] && Readable(keys, contents, faults) {
      CollectedCovers(edits, keys, firsts, contents);
      var planned := Planned(contents, edits, 0);
      if planned.Ok? {
        var files := FilesOf(keys, firsts, contents, planned.value, faults);
        assert w == [] || w == CommitWrites(files, faults, 0);
        FilesWritesAreShort(files, keys, faults, CommitWrites(files, faults, 0));
      }
    }
  }

  lemma FilesWritesAreShort(files: seq<File>, keys: seq<string>, faults: Faults, w: seq<Transactions.Write>)
    requires |files| == |keys| && forall j | 0 <= j < |files| :: files[j].key == keys[j]
    requires w == CommitWrites(files, faults, 0)
    ensures |w| <= 2 * |keys| && forall i | 0 <= i < |w| :: w[i].key in keys
  {
    CommitWritesAreShort(files, faults, 0);
    forall i | 0 <= i < |w|
      ensures w[i].key in keys
    {
      var f :| f in files && f.key == w[i].key;
      var j :| 0 <= j < |files| && files[j] == f;
    }
  }

  /** What a call does to the files by itself is what it does among other calls: a function of the texts
      it loads. So every execution that ExecuteEdits describes is one of the calls whose interleavings
      are serializable. */
  lemma ExecutionIsCall(edits: seq<Edit>, keys: seq<string>, firsts: seq<nat>, renderedBytes: seq<File> -> nat,
                        faults: Faults, before: map<string, string>, log0: seq<Transactions.Write>,
                        after: map<string, string>, log: seq<Transactions.Write>)
    requires Collected(edits, |edits|, keys, firsts)
    requires log == log0 + CallWrites(edits, keys, firsts, renderedBytes, faults, Transactions.Loaded(before, keys))
    requires after == Transactions.PutAll(before, log[|log0|..])
    ensures var call := EditCall(edits, keys, firsts, renderedBytes, faults);
            && Transactions.WellFormed(call)
            && after == Transactions.Effect(call, before, |call.plan(Transactions.Loaded(before, keys))|)
  {
    var call := EditCall(edits, keys, firsts, renderedBytes, faults);
    var writes := call.plan(Transactions.Loaded(before, keys));
    EditCallIsWellFormed(edits, keys, firsts, renderedBytes, faults);
    assert log[|log0|..] == writes && writes[..|writes|] == writes;
  }

  // ----- calls that nothing befalls

  ghost predicate Unharmed(keys: seq<string>, faults: Faults)
  {
    forall k | k in keys :: faults.loads(k) && faults.writes(k).Done?
  }

  /** If all writes succeed, committing the files from the i-th on leaves their new contents. */
  lemma {:induction false} CommitMakesAll(contents: map<string, string>, files: seq<File>, faults: Faults, i: nat,
                                          now: map<string, string>)
    requires i <= |files| && DistinctKeys(files) && WrittenUpTo(contents, files, i)
    requires forall f | f in files :: faults.writes(f.key).Done?
    requires now == Transactions.PutAll(contents, CommitWrites(files, faults, i))
    ensures WrittenUpTo(now, files, |files|) && OthersKept(contents, now, KeySet(files))
    decreases |files| - i
  {
    if i < |files| {
      if files[i].before == files[i].after {
        CommitMakesAll(contents, files, faults, i + 1, now);
      } else {
        var next := contents[files[i].key := files[i].after];
        assert files[i] in files;
        FirstCommit(contents, files, faults, i, now, next);
        assert WrittenUpTo(next, files, i + 1) by { OneFileWritten(contents, next, files, i); }
        CommitMakesAll(next, files, faults, i + 1, now);
        KeptOnce(contents, next, now, files, i);
      }
    }
  }

  lemma KeptOnce(contents: map<string, string>, next: map<string, string>, now: map<string, string>, files: seq<File>,
                 i: nat)
    requires i < |files| && next == contents[files[i].key := files[i].after] && OthersKept(next, now, KeySet(files))
    ensures OthersKept(contents, now, KeySet(files))
  {
    assert files[i].key in KeySet(files);
  }

  lemma FirstCommit(contents: map<string, string>, files: seq<File>, faults: Faults, i: nat, now: map<string, string>,
                    next: map<string, string>)
    requires i < |files| && files[i].before != files[i].after && faults.writes(files[i].key).Done?
    requires now == Transactions.PutAll(contents, CommitWrites(files, faults, i))
    requires next == contents[files[i].key := files[i].after]
    ensures now == Transactions.PutAll(next, CommitWrites(files, faults, i + 1))
  {
    FirstWrite(contents, files[i].key, files[i].after, CommitWrites(files, faults, i + 1));
  }

  lemma FirstWrite(contents: map<string, string>, key: string, text: string, rest: seq<Transactions.Write>)
    ensures var w := [Transactions.Write(key, Some(text))];
            Transactions.PutAll(contents, w + rest) == Transactions.PutAll(contents[key := text], rest)
  {
    var w := [Transactions.Write(key, Some(text))];
    Transactions.PutAllAppend(contents, w, rest);
    assert w[..0] == [] && Transactions.PutAll(contents, []) == contents;
  }

  /** A call that nothing befalls turns the files into what its edits, applied one after another, make
      of them, or leaves them if an edit fails or its answer would be too large; with serializability,
      calls at once do what their edits do, one call after another. */
  lemma UnharmedCallMakesItsEdits(edits: seq<Edit>, keys: seq<string>, firsts: seq<nat>,
                                  renderedBytes: seq<File> -> nat, faults: Faults, contents: map<string, string>)
    requires Collected(edits, |edits|, keys, firsts) && Unharmed(keys, faults) && EditKeys(edits) <= contents.Keys
    ensures (forall k | k in keys :: k in contents)
    ensures var call, planned := EditCall(edits, keys, firsts, renderedBytes, faults), Planned(contents, edits, 0);
            Transactions.Effect(call, contents, |call.plan(Transactions.Loaded(contents, keys))|)
            == if planned.Err?
                  || renderedBytes(FilesOf(keys, firsts, contents, planned.value, faults)) > MAX_RESULT_BYTES
               then contents else planned.value
  {
    NamedKeys(edits, keys, firsts);
    var call, planned := EditCall(edits, keys, firsts, renderedBytes, faults), Planned(contents, edits, 0);
    if edits == [] {
      UnreadableWrites(edits, keys, firsts, renderedBytes, faults, contents);
    } else {
      UnharmedWrites(edits, keys, firsts, renderedBytes, faults, contents, planned,
                     call.plan(Transactions.Loaded(contents, keys)));
    }
    MakesAll(call, contents);
  }

  lemma UnharmedWrites(edits: seq<Edit>, keys: seq<string>, firsts: seq<nat>, renderedBytes: seq<File> -> nat,
                       faults: Faults, contents: map<string, string>,
                       planned: Result<map<string, string>, (nat, ReplaceError)>, writes: seq<Transactions.Write>)
    requires Collected(edits, |edits|, keys, firsts) && Unharmed(keys, faults) && edits != []
    requires EditKeys(edits) <= contents.Keys && planned == Planned(contents, edits, 0)
    requires forall k :: k in EditKeys(edits) <==> k in keys
    requires writes == CallWrites(edits, keys, firsts, renderedBytes, faults, Transactions.Loaded(contents, keys))
    ensures Transactions.PutAll(contents, writes)
            == if planned.Err?
                  || renderedBytes(FilesOf(keys, firsts, contents, planned.value, faults)) > MAX_RESULT_BYTES
               then contents else planned.value
  {
    var part := LoadedPart(contents, keys);
    LoadedPartIs(contents, keys);
    var inPart := Planned(part, edits, 0);
    WritesAsPlanned(edits, keys, firsts, renderedBytes, faults, contents, part);
    PlannedInPart(contents, part, edits, 0);
    if inPart.Ok? {
      var files := FilesOf(keys, firsts, part, inPart.value, faults);
      assert files == FilesOf(keys, firsts, contents, planned.value, faults) by {
        FilesOfPart(keys, firsts, contents, part, inPart.value, faults);
      }
      UnharmedCommit(edits, keys, firsts, faults, contents, part, inPart.value, files);
    }
    NothingWritten(contents, []);
  }

  lemma FilesOfPart(keys: seq<string>, firsts: seq<nat>, contents: map<string, string>, part: map<string, string>,
                    staged: map<string, string>, faults: Faults)
    requires |keys| == |firsts| && part.Keys == staged.Keys && forall k :: k in part <==> k in keys
    requires part.Keys <= contents.Keys && forall k | k in part :: contents[k] == part[k]
    ensures FilesOf(keys, firsts, part, staged, faults) == FilesOf(keys, firsts, contents, contents + staged, faults)
  {
  }

  lemma MakesAll(call: Transactions.Call, contents: map<string, string>)
    ensures var writes := call.plan(Transactions.Loaded(contents, call.keys));
            Transactions.Effect(call, contents, |writes|) == Transactions.PutAll(contents, writes)
  {
    var writes := call.plan(Transactions.Loaded(contents, call.keys));
    assert writes[..|writes|] == writes;
  }

  lemma NamedKeys(edits: seq<Edit>, keys: seq<string>, firsts: seq<nat>)
    requires Collected(edits, |edits|, keys, firsts)
    ensures forall k :: k in EditKeys(edits) <==> k in keys
  {
    forall k | k in keys
      ensures k in EditKeys(edits)
    {
      var j :| 0 <= j < |keys| && keys[j] == k;
      assert FirstNaming(edits, keys[j], firsts[j]) && edits[firsts[j]] in edits;
    }
  }

  lemma UnharmedCommit(edits: seq<Edit>, keys: seq<string>, firsts: seq<nat>, faults: Faults,
                       contents: map<string, string>, part: map<string, string>, staged: map<string, string>,
                       files: seq<File>)
    requires Keys.Ascending(keys) && |keys| == |firsts| && Unharmed(keys, faults)
    requires forall k :: k in EditKeys(edits) <==> k in keys
    requires part.Keys == staged.Keys && (forall k :: k in part <==> k in keys)
    requires part.Keys <= contents.Keys && forall k | k in part :: contents[k] == part[k]
    requires files == FilesOf(keys, firsts, part, staged, faults)
    ensures Transactions.PutAll(contents, CommitWrites(files, faults, 0)) == contents + staged
  {
    StagedFiles(files, edits, keys, firsts, contents, part, staged, faults);
    forall f | f in files
      ensures faults.writes(f.key).Done?
    {
      var j :| 0 <= j < |files| && files[j] == f;
      assert keys[j] in keys;
    }
    CommitMakesAll(contents, files, faults, 0, Transactions.PutAll(contents, CommitWrites(files, faults, 0)));
    AllWritten(files, keys, contents, staged, Transactions.PutAll(contents, CommitWrites(files, faults, 0)));
  }
}
