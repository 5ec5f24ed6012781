/** Restoring a backup file (`importSessions` in popup.js): entries are
    merged by id into the saved list. */
module Import {
  import opened Wrappers
  import opened Sessions
  import opened ExtensionStore

  /** One element of the parsed backup array: `null` (reading `.id` of it
      throws), a primitive (it has no `id`), or an object, of which the model
      keeps the record and whether its `tokens` property is truthy. An empty
      `id` stands for a missing or falsy one. */
  datatype ImportEntry = NullEntry | Primitive | Record(session: Session, hasTokens: bool)

  /** The result of `JSON.parse` on the file's text. */
  datatype ImportInput = Unparsable | NotArray | Array(entries: seq<ImportEntry>)

  /** The status the popup shows afterwards. */
  datatype ImportStatus = ImportFailed | NothingNew | Imported(count: nat)

  /** The ids of the saved records (`currentIds`). */
  function Ids(sessions: seq<Session>): (r: set<string>)
    ensures forall id :: id in r <==> FindById(sessions, id).Some?
  {
    var r := set s | s in sessions :: s.id;
    forall id ensures id in r <==> FindById(sessions, id).Some? {
      if id in r {
        var s :| s in sessions && s.id == id;
        var i :| 0 <= i < |sessions| && sessions[i] == s;
      }
    }
    r
  }

  /** An entry is appended when it has an id and tokens and its id is not
      among the saved ones. */
  predicate Admissible(e: ImportEntry, ids: set<string>): (b: bool)
    ensures !e.Record? ==> !b
    ensures b ==> e.hasTokens && e.session.id != "" && e.session.id !in ids
  {
    e.Record? && e.session.id != "" && e.hasTokens && e.session.id !in ids
  }

  /** The admissible entries, in file order. */
  function Admitted(entries: seq<ImportEntry>, ids: set<string>): (r: seq<Session>)
    ensures |r| <= |entries|
    ensures forall s :: s in r ==> s.id != "" && s.id !in ids
    decreases |entries|
  {
    if entries == [] then []
    else
      var init, last := entries[..|entries| - 1], entries[|entries| - 1];
      Admitted(init, ids) + if Admissible(last, ids) then [last.session] else []
  }

  /** Each entry is judged on its own against the saved ids: the merge
      splits over any cut of the file. */
  lemma {:induction false} AdmittedDistributes(a: seq<ImportEntry>, b: seq<ImportEntry>, ids: set<string>)
    ensures Admitted(a + b, ids) == Admitted(a, ids) + Admitted(b, ids)
    decreases |b|
  {
    if b == [] {
      assert a + b == a;
    } else {
      var init := b[..|b| - 1];
      assert (a + b)[..|a + b| - 1] == a + init;
      AdmittedDistributes(a, init, ids);
    }
  }

  /** A file of one entry appends that entry exactly when it is admissible;
      with `AdmittedDistributes` this fixes the merge for every file. */
  lemma AdmittedOfOne(e: ImportEntry, ids: set<string>)
    ensures Admitted([e], ids) == if Admissible(e, ids) then [e.session] else []
  {
    assert [e][..0] == [];
  }

  /** Every appended record comes from an admissible entry of the file: a
      record with an id, with tokens, and with an id not yet saved. */
  lemma {:induction false} AdmittedComesFromFile(entries: seq<ImportEntry>, ids: set<string>, s: Session)
    requires s in Admitted(entries, ids)
    ensures exists i :: 0 <= i < |entries| && Admissible(entries[i], ids) && entries[i].session == s
    decreases |entries|
  {
    var init, last := entries[..|entries| - 1], entries[|entries| - 1];
    if s in Admitted(init, ids) {
      AdmittedComesFromFile(init, ids, s);
      var i :| 0 <= i < |init| && Admissible(init[i], ids) && init[i].session == s;
      assert entries[i] == init[i];
    } else {
      assert Admissible(last, ids) && last.session == s;
    }
  }

  /** Every admissible entry of the file is appended. */
  lemma {:induction false} AdmittedKeepsEvery(entries: seq<ImportEntry>, ids: set<string>, i: nat)
    requires i < |entries| && Admissible(entries[i], ids)
    ensures entries[i].session in Admitted(entries, ids)
    decreases |entries|
  {
    if i < |entries| - 1 {
      AdmittedKeepsEvery(entries[..|entries| - 1], ids, i);
    }
  }

  /** Two entries of the file with the same new id are both appended: ids
      are checked against the saved list only, not against each other. */
  lemma RepeatedIdInFileIsKeptTwice(e: ImportEntry, ids: set<string>)
    requires Admissible(e, ids)
    ensures Admitted([e, e], ids) == [e.session, e.session]
  {
    assert [e, e][..1] == [e];
    assert [e][..0] == [];
  }

  /** True when some element of the file is `null`. */
  predicate HasNull(entries: seq<ImportEntry>) {
    exists i :: 0 <= i < |entries| && entries[i].NullEntry?
  }

  /** The merge loop: copy the saved list, append each admissible entry and
      count it. A `null` element throws, which abandons the merge. */
  method MergeImport(current: seq<Session>, imported: seq<ImportEntry>)
    returns (r: Option<(seq<Session>, nat)>)
    ensures r.None? <==> HasNull(imported)
    ensures r.Some? ==> r.value.0 == current + Admitted(imported, Ids(current))
    ensures r.Some? ==> r.value.1 == |Admitted(imported, Ids(current))|
  {
    var currentIds := Ids(current);
    var newSessions := current;
    var addedCount := 0;
    var i := 0;
    while i < |imported|
      invariant 0 <= i <= |imported|
      invariant forall j :: 0 <= j < i ==> !imported[j].NullEntry?
      invariant newSessions == current + Admitted(imported[..i], currentIds)
      invariant addedCount == |Admitted(imported[..i], currentIds)|
    {
      var s := imported[i];
      assert imported[..i + 1][..i] == imported[..i];
      if s.NullEntry? {
        return None;
      }
      if s.Record? && s.session.id != "" && s.hasTokens && s.session.id !in currentIds {
        newSessions := newSessions + [s.session];
        addedCount := addedCount + 1;
      }
      i := i + 1;
    }
    assert imported[..i] == imported;
    r := Some((newSessions, addedCount));
  }

  /** The file reader's handler: a file that does not parse, is not an
      array, or has a `null` element ends in the error status with nothing
      written; otherwise the merged list is written when at least one entry
      was added. */
  method ImportSessions(store: LocalStore, input: ImportInput) returns (status: ImportStatus)
    modifies store
    ensures !input.Array? ==> status == ImportFailed && unchanged(store)
    ensures input.Array? && HasNull(input.entries) ==> status == ImportFailed && unchanged(store)
    ensures input.Array? && !HasNull(input.entries) ==>
              var added := Admitted(input.entries, Ids(old(store.sessions)));
              && status == (if |added| == 0 then NothingNew else Imported(|added|))
              && (if |added| == 0 then unchanged(store)
                  else store.sessions == old(store.sessions) + added
                       && store.activeSessionId == old(store.activeSessionId))
  {
    if !input.Array? {
      return ImportFailed;
    }
    var current := store.sessions;
    var merged := MergeImport(current, input.entries);
    if merged.None? {
      return ImportFailed;
    }
    var (newSessions, addedCount) := merged.value;
    if addedCount == 0 {
      status := NothingNew;
    } else {
      store.sessions := newSessions;
      status := Imported(addedCount);
    }
  }
}
