/** RENAME, REMOVE and RMDIR with the file table and the reply in one: the client is told of a success exactly
    when the table was changed for one. */
module TableReplies {
  import opened Forests
  import opened Wire
  import opened Results
  import opened Statuses
  import opened HandleMachine
  import opened Plainness
  import opened Coherence
  import opened RenameSteps
  import opened DotSteps
  import opened FileTables
  import opened NfsCalls
  import opened NfsResults
  import opened NfsReplies

  /** A client takes this status out of the result of a procedure. */
  ghost predicate TellsStatus(proc: U32, args: seq<Field>, a: Answer, stat: U32) {
    |Told(proc, args, a)| > 0 && Told(proc, args, a)[0] == Uint32(stat)
  }

  /** GetFullPath and CheckFile went well. */
  predicate Passed(a: Answer) {
    !a.tooLong && a.check == NFS3_OK
  }

  /** The handles after a RENAME whose client reads this status, with the handles and the forest before it. A success
      renames, if both ends were registered, what is left when an existing target is removed. A failure leaves
      all handles but those of an existing target that was removed, and of dot entries. */
  ghost predicate RenamedAs(stat: U32, f: Forest, before: View, after: View, from: string, to: string, directoryLink: bool, a: Answer)
    requires WellFormed(f)
  {
    var mid := if a.targetExists then Run(before, EntryRemoval(to, directoryLink, a.removal == NoError)) else before;
    if stat == NFS3_OK then
      after ==
      if PerformedWithout(f, from, to, Unlisted(to, a.targetExists, directoryLink, a.removal == NoError))
        then Apply(mid, Rename(from, to)) else mid
    else if !Passed(a) then after == before
    else after == if a.targetExists then mid else DotView(f, mid, from, to)
  }

  /** ProcedureRENAME behind its reads. */
  method ProcedureRENAME(files: FileTable, from: string, to: string, directoryLink: bool, args: seq<Field>, a: Answer)
    returns (stat: U32)
    requires files.Valid() && files.tree.topNode != null
    requires Passed(a) ==>
               RenameCall(files.tree.filesTree.f, from, to, a.targetExists, directoryLink, a.removal == NoError, a.errno == NoError)
    modifies files.tree`topNode, files.tree.filesTree, files.tree.filesTree.cells.Keys, files.table.Repr
    ensures files.Held() && TellsStatus(RENAME, args, a, stat)
    ensures RenamedAs(stat, old(files.tree.filesTree.f), old(files.Clients()), files.Clients(), from, to, directoryLink, a)
  {
    hide FileTable.Held, FileTable.KeepsAside, FileTable.Clients, RenameCall, PerformedWithout, DotView, DotsCollide, Run, EntryRemoval,
      Unlisted, Told, Apply;
    RenameTells(args, a);
    files.HeldIsShaped();
    if !Passed(a) {
      stat := if a.tooLong then NFS3ERR_NAMETOOLONG else a.check;
    } else {
      var errorNumber := if a.errno == NoError then 0 else 1;
      var ok, _ := files.ProcedureRENAME(from, to, a.targetExists, directoryLink, a.removal == NoError, errorNumber);
      stat := if ok then NFS3_OK else if a.targetExists && a.removal != NoError then Removal(a.removal) else AccessOrIo(a.errno);
    }
  }

  /** ProcedureREMOVE behind its reads: the handles of the path are stale exactly when the client is told so. */
  method ProcedureREMOVE(files: FileTable, path: string, directoryLink: bool, args: seq<Field>, a: Answer) returns (stat: U32)
    requires files.Valid() && (Passed(a) && a.errno == NoError ==> EntryRemovable(files.tree.filesTree.f, path, directoryLink))
    modifies files.tree`topNode, files.tree.filesTree, files.tree.filesTree.cells.Keys, files.table.Repr
    ensures files.Valid() && TellsStatus(REMOVE, args, a, stat)
    ensures files.Clients() == Run(old(files.Clients()), EntryRemoval(path, directoryLink, stat == NFS3_OK))
  {
    hide FileTable.Held, FileTable.Clients, EntryRemovable, Told, EntryRemoval;
    RemoveTells(REMOVE, args, a);
    files.HeldIsShaped();
    NothingRemoved(files.Clients(), path, directoryLink);
    if !Passed(a) {
      stat := if a.tooLong then NFS3ERR_NAMETOOLONG else a.check;
    } else {
      files.RemoveEntry(path, directoryLink, a.errno == NoError);
      stat := Removal(a.errno);
    }
  }

  lemma NothingRemoved(view: View, path: string, directoryLink: bool)
    ensures Run(view, EntryRemoval(path, directoryLink, false)) == view
  {
  }

  /** ProcedureRMDIR behind its reads. */
  method ProcedureRMDIR(files: FileTable, path: string, args: seq<Field>, a: Answer) returns (stat: U32)
    requires files.Valid() && (Passed(a) && a.errno == NoError ==> FolderRemovable(files.tree.filesTree.f, path))
    modifies files.tree`topNode, files.tree.filesTree, files.tree.filesTree.cells.Keys, files.table.Repr
    ensures files.Valid() && TellsStatus(RMDIR, args, a, stat)
    ensures files.Clients() ==
            if stat == NFS3_OK then Run(old(files.Clients()), [Remove(Dot(path)), Remove(DotDot(path)), Remove(path)])
            else old(files.Clients())
  {
    hide FileTable.Held, FileTable.Clients, FolderRemovable, Told, Run;
    RemoveTells(RMDIR, args, a);
    files.HeldIsShaped();
    if !Passed(a) {
      stat := if a.tooLong then NFS3ERR_NAMETOOLONG else a.check;
    } else {
      files.RemoveFolder(path, a.errno == NoError);
      stat := Removal(a.errno);
    }
  }
}
