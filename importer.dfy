/**
 * The import command: pick the material name from the chosen folder, cancel
 * when a material of that name already exists, then go through the folder's
 * files in order, copying every texture into the export folder and attaching
 * it to the slot its texture type selects, and finally save the material.
 *
 * The engine is not modelled: whether the export folder exists, whether the
 * asset search finds a material of that name, and whether each copy and
 * import succeeds are inputs; the material is the map from slot to the file
 * attached there, and the log is the list of messages written.
 */
module Importer {
  import opened Wrappers
  import opened Paths
  import opened Classifier
  import opened SlotTable

  const RootPath: string := "Assets"
  const ExportFolderName: string := "Materials"
  const MaterialType: string := ".mat"

  /** The folder the textures are copied into and the material is saved in. */
  function ExportPath(): (r: string)
    ensures r == "Assets/Materials"
  {
    AddPath(RootPath, ExportFolderName)
  }

  /** Where the material asset is saved. */
  function SavePath(materialName: string): (r: string)
    ensures |r| == |materialName| + 21
  {
    ExportPath() + [FSlash] + materialName + MaterialType
  }

  /** The save path is "Assets/Materials/" + name + ".mat". */
  lemma SavePathLiteral(materialName: string)
    ensures SavePath(materialName) == "Assets/Materials/" + materialName + ".mat"
  {
  }

  /** Different material names are saved under different paths. */
  lemma {:induction false} SavePathInjective(m: string, n: string)
    ensures SavePath(m) == SavePath(n) <==> m == n
  {
    if SavePath(m) == SavePath(n) {
      var k := |ExportPath()| + 1;
      assert |m| == |n|;
      assert m == SavePath(m)[k..k + |m|];
      assert n == SavePath(n)[k..k + |n|];
    }
  }

  /** Where a texture of the given file name is copied to. */
  function CopyPath(newFile: string): (r: string)
    ensures |r| == |newFile| + 17
  {
    AddPath(ExportPath(), newFile)
  }

  /** A texture is copied to "Assets/Materials/" + its file name. */
  lemma CopyPathLiteral(newFile: string)
    ensures CopyPath(newFile) == "Assets/Materials/" + newFile
  {
  }

  /** The messages the import writes to the log. */
  datatype Message =
    | AlreadyExists(materialName: string)
    | UnknownSuffix(textureType: string)
    | CouldNotImport(file: string)

  /**
   * The import between the conflict check and the save: the material's slots
   * (slot -> source file), the copies attempted so far (their destination
   * paths), the log, and the file whose texture-type substring threw.
   */
  datatype Progress = Progress(
    slots: map<Slot, string>,
    copies: seq<string>,
    log: seq<Message>,
    crashed: Option<string>)

  const Start: Progress := Progress(map[], [], [], None)

  /** Each file's classification, in file order. */
  function Classifications(files: seq<string>, token: char): (cs: seq<Classification>)
    ensures |cs| == |files|
  {
    seq(|files|, j requires 0 <= j < |files| => Classify(files[j], token))
  }

  /**
   * A file of classification `c`, with its copy-and-import outcome, attaches
   * a texture to the slot: it is a texture, imported, whose type selects it.
   */
  predicate Fills(c: Classification, imported: bool, slot: Slot) {
    imported && c.Texture? && SlotFor(c.textureType) == Some(slot)
  }

  /**
   * One pass of the loop body over `file`, classified as `c`, whose copy and
   * import succeed when `imported`.
   */
  function Step(pr: Progress, file: string, c: Classification, imported: bool): (r: Progress) {
    if pr.crashed.Some? then pr
    else match c
      case NotImage => pr
      case NoPrefixToken => pr
      case BadSubstring => pr.(crashed := Some(file))
      case Texture(textureType, newFile) =>
        var copies := pr.copies + [CopyPath(newFile)];
        if !imported then pr.(copies := copies, log := pr.log + [CouldNotImport(file)])
        else match SlotFor(textureType)
          case Some(slot) => pr.(copies := copies, slots := pr.slots[slot := file])
          case None => pr.(copies := copies, log := pr.log + [UnknownSuffix(textureType)])
  }

  /**
   * What one pass does: once the command has thrown nothing else happens; a
   * file that is not a texture changes nothing but the crash flag, which it
   * sets to itself exactly when its texture-type substring is malformed; a
   * texture is copied to the export folder whatever happens afterwards; and
   * a failed import leaves the material unchanged and is logged.
   */
  lemma StepFacts(pr: Progress, file: string, c: Classification, imported: bool)
    ensures var r := Step(pr, file, c, imported);
            && (pr.crashed.Some? ==> r == pr)
            && (!c.Texture? ==> r.slots == pr.slots && r.copies == pr.copies && r.log == pr.log)
            && (pr.crashed.None? ==> (r.crashed.Some? <==> c.BadSubstring?))
            && (pr.crashed.None? && r.crashed.Some? ==> r.crashed == Some(file))
            && (pr.crashed.None? && c.Texture? ==> r.copies == pr.copies + [CopyPath(c.newFile)])
            && (!imported ==> r.slots == pr.slots)
            && (pr.crashed.None? && c.Texture? && !imported ==> r.log == pr.log + [CouldNotImport(file)])
  {
  }

  /** An imported texture sets the slot its type selects and no other; other files set nothing. */
  lemma StepSlot(pr: Progress, file: string, c: Classification, imported: bool, slot: Slot)
    requires pr.crashed.None?
    ensures var r := Step(pr, file, c, imported);
            if Fills(c, imported, slot) then slot in r.slots && r.slots[slot] == file
            else (slot in r.slots <==> slot in pr.slots) && (slot in pr.slots ==> r.slots[slot] == pr.slots[slot])
  {
  }

  /** The loop over the files and their classifications, in order, from the start state. */
  function Process(files: seq<string>, cs: seq<Classification>, imported: seq<bool>): (r: Progress)
    requires |cs| == |files| && |imported| == |files|
    decreases |files|
  {
    if |files| == 0 then Start
    else
      var n := |files| - 1;
      Step(Process(files[..n], cs[..n], imported[..n]), files[n], cs[n], imported[n])
  }

  /** The loop state after `i + 1` files is one more pass over the state after `i`. */
  lemma ProcessPrefix(files: seq<string>, cs: seq<Classification>, imported: seq<bool>, i: nat)
    requires |cs| == |files| && |imported| == |files| && i < |files|
    ensures Process(files[..i + 1], cs[..i + 1], imported[..i + 1]) ==
              Step(Process(files[..i], cs[..i], imported[..i]), files[i], cs[i], imported[i])
  {
    assert files[..i + 1][..i] == files[..i] && cs[..i + 1][..i] == cs[..i];
    assert imported[..i + 1][..i] == imported[..i];
  }

  /** Once a file has thrown, the files after it are never looked at. */
  lemma {:induction false} CrashStops(files: seq<string>, cs: seq<Classification>, imported: seq<bool>, i: nat)
    requires |cs| == |files| && |imported| == |files| && i <= |files|
    requires Process(files[..i], cs[..i], imported[..i]).crashed.Some?
    ensures Process(files, cs, imported) == Process(files[..i], cs[..i], imported[..i])
    decreases |files|
  {
    if i < |files| {
      var n := |files| - 1;
      assert files[..n][..i] == files[..i];
      assert cs[..n][..i] == cs[..i];
      assert imported[..n][..i] == imported[..i];
      CrashStops(files[..n], cs[..n], imported[..n], i);
      StepFacts(Process(files[..n], cs[..n], imported[..n]), files[n], cs[n], imported[n]);
    } else {
      assert files[..i] == files;
      assert cs[..i] == cs;
      assert imported[..i] == imported;
    }
  }

  /** The command throws exactly when some file is malformed, and then at the first such file. */
  lemma {:induction false} CrashIsFirstBadFile(files: seq<string>, cs: seq<Classification>, imported: seq<bool>)
    requires |cs| == |files| && |imported| == |files|
    ensures var pr := Process(files, cs, imported);
            pr.crashed.None? <==> forall j :: 0 <= j < |files| ==> !cs[j].BadSubstring?
    ensures var pr := Process(files, cs, imported);
            pr.crashed.Some? ==>
              exists j :: 0 <= j < |files| && pr.crashed == Some(files[j]) && cs[j].BadSubstring? &&
                forall k :: 0 <= k < j ==> !cs[k].BadSubstring?
    decreases |files|
  {
    if |files| > 0 {
      var n := |files| - 1;
      var fs, cs', im := files[..n], cs[..n], imported[..n];
      CrashIsFirstBadFile(fs, cs', im);
      var before := Process(fs, cs', im);
      StepFacts(before, files[n], cs[n], imported[n]);
      assert forall k :: 0 <= k < n ==> cs'[k] == cs[k];
      if before.crashed.Some? {
        var j :| 0 <= j < n && before.crashed == Some(fs[j]) && cs'[j].BadSubstring? &&
          forall k :: 0 <= k < j ==> !cs'[k].BadSubstring?;
        assert fs[j] == files[j];
      }
    }
  }

  /** After all files, a slot holds a texture exactly when some file fills it. */
  lemma {:induction false} SlotsFilled(files: seq<string>, cs: seq<Classification>, imported: seq<bool>, slot: Slot)
    requires |cs| == |files| && |imported| == |files|
    requires Process(files, cs, imported).crashed.None?
    ensures slot in Process(files, cs, imported).slots <==>
              exists j :: 0 <= j < |files| && Fills(cs[j], imported[j], slot)
    decreases |files|
  {
    if |files| > 0 {
      var n := |files| - 1;
      var fs, cs', im := files[..n], cs[..n], imported[..n];
      var before := Process(fs, cs', im);
      StepFacts(before, files[n], cs[n], imported[n]);
      SlotsFilled(fs, cs', im, slot);
      StepSlot(before, files[n], cs[n], imported[n], slot);
      assert forall k :: 0 <= k < n ==> cs'[k] == cs[k] && im[k] == imported[k];
    }
  }

  /** File `j` is the last file that fills the slot, and `file` is that file. */
  predicate Witness(files: seq<string>, cs: seq<Classification>, imported: seq<bool>, slot: Slot,
                    file: string, j: int)
    requires |cs| == |files| && |imported| == |files|
  {
    && 0 <= j < |files| && Fills(cs[j], imported[j], slot) && file == files[j]
    && forall k :: j < k < |files| ==> !Fills(cs[k], imported[k], slot)
  }

  /**
   * Last write wins: a slot that holds a texture holds the file of the last
   * file that fills it.
   */
  lemma {:induction false} SlotsLastWriteWins(files: seq<string>, cs: seq<Classification>, imported: seq<bool>,
                                              slot: Slot)
    requires |cs| == |files| && |imported| == |files|
    requires Process(files, cs, imported).crashed.None?
    ensures var pr := Process(files, cs, imported);
            slot in pr.slots ==> exists j :: Witness(files, cs, imported, slot, pr.slots[slot], j)
    decreases |files|
  {
    if |files| > 0 {
      var n := |files| - 1;
      var fs, cs', im := files[..n], cs[..n], imported[..n];
      var before := Process(fs, cs', im);
      StepFacts(before, files[n], cs[n], imported[n]);
      StepSlot(before, files[n], cs[n], imported[n], slot);
      var pr := Process(files, cs, imported);
      if Fills(cs[n], imported[n], slot) {
        assert pr.slots[slot] == files[n];
        assert Witness(files, cs, imported, slot, pr.slots[slot], n);
      } else if slot in before.slots {
        assert before.crashed.None?;
        SlotsLastWriteWins(fs, cs', im, slot);
        var j :| Witness(fs, cs', im, slot, before.slots[slot], j);
        assert fs[j] == files[j] && cs'[j] == cs[j] && im[j] == imported[j];
        assert forall k :: j < k < n ==> cs'[k] == cs[k] && im[k] == imported[k];
        assert Witness(files, cs, imported, slot, pr.slots[slot], j);
      }
    }
  }

  /**
   * Every copy attempted is, in the export folder, under the copied name of a
   * file classified as a texture, and there are no more copies than files.
   */
  lemma {:induction false} CopiesAreTextures(files: seq<string>, cs: seq<Classification>, imported: seq<bool>)
    requires |cs| == |files| && |imported| == |files|
    ensures var pr := Process(files, cs, imported);
            |pr.copies| <= |files| &&
            forall p :: p in pr.copies ==>
              exists j :: 0 <= j < |files| && cs[j].Texture? && p == CopyPath(cs[j].newFile)
    decreases |files|
  {
    if |files| > 0 {
      var n := |files| - 1;
      var fs, cs', im := files[..n], cs[..n], imported[..n];
      CopiesAreTextures(fs, cs', im);
      var before := Process(fs, cs', im);
      StepFacts(before, files[n], cs[n], imported[n]);
      forall p | p in Process(files, cs, imported).copies
        ensures exists j :: 0 <= j < |files| && cs[j].Texture? && p == CopyPath(cs[j].newFile)
      {
        if p in before.copies {
          var j :| 0 <= j < n && cs'[j].Texture? && p == CopyPath(cs'[j].newFile);
          assert cs'[j] == cs[j];
        }
      }
    }
  }

  /**
   * The reference list of copies: the copy path of each file classified as
   * a texture, in file order.
   */
  function TextureCopies(cs: seq<Classification>): (r: seq<string>)
    ensures |r| <= |cs|
    decreases |cs|
  {
    if |cs| == 0 then []
    else
      var n := |cs| - 1;
      TextureCopies(cs[..n]) + (if cs[n].Texture? then [CopyPath(cs[n].newFile)] else [])
  }

  /** Without a throw, the copies attempted are exactly the reference list. */
  lemma {:induction false} CopiesInOrder(files: seq<string>, cs: seq<Classification>, imported: seq<bool>)
    requires |cs| == |files| && |imported| == |files|
    requires Process(files, cs, imported).crashed.None?
    ensures Process(files, cs, imported).copies == TextureCopies(cs)
    decreases |files|
  {
    if |files| > 0 {
      var n := |files| - 1;
      var before := Process(files[..n], cs[..n], imported[..n]);
      StepFacts(before, files[n], cs[n], imported[n]);
      CopiesInOrder(files[..n], cs[..n], imported[..n]);
    }
  }

  /**
   * When file `j` is the first malformed one, the loop stops there, and the
   * copies attempted are the reference list of the files before it.
   */
  lemma CopiesBeforeCrash(files: seq<string>, cs: seq<Classification>, imported: seq<bool>, j: int)
    requires |cs| == |files| && |imported| == |files|
    requires 0 <= j < |files| && cs[j].BadSubstring?
    requires forall k :: 0 <= k < j ==> !cs[k].BadSubstring?
    ensures Process(files, cs, imported).crashed == Some(files[j])
    ensures Process(files, cs, imported).copies == TextureCopies(cs[..j])
  {
    var fs, cs', im := files[..j], cs[..j], imported[..j];
    assert forall k :: 0 <= k < j ==> cs'[k] == cs[k];
    CrashIsFirstBadFile(fs, cs', im);
    CopiesInOrder(fs, cs', im);
    ProcessPrefix(files, cs, imported, j);
    StepFacts(Process(fs, cs', im), files[j], cs[j], imported[j]);
    CrashStops(files, cs, imported, j + 1);
  }

  /** How the command ends. */
  datatype Outcome =
    | Cancelled              // a material of that name already exists
    | Aborted(file: string)  // the texture-type substring of `file` threw
    | Saved(path: string)    // the material was saved at `path`

  /** Everything the command does that the model observes. */
  datatype Run = Run(
    createdFolder: bool,
    materialName: string,
    outcome: Outcome,
    copies: seq<string>,
    slots: map<Slot, string>,
    log: seq<Message>)

  /** What the command does, stated as a function of its inputs. */
  function TakeTexturesSpec(path: string, files: seq<string>, token: char,
                            folderExists: bool, conflict: bool, imported: seq<bool>): (r: Run)
    requires |imported| == |files|
    // The export folder is created when missing, before the conflict check.
    ensures r.createdFolder == !folderExists
    ensures r.materialName == BaseName(path)
    // A conflict cancels before anything is copied or saved.
    ensures conflict <==> r.outcome == Cancelled
    ensures conflict ==> r.copies == [] && r.slots == map[] && r.log == [AlreadyExists(BaseName(path))]
    // Otherwise the material is saved under its name, unless a file throws.
    ensures r.outcome.Saved? ==> r.outcome.path == SavePath(BaseName(path))
  {
    var materialName := BaseName(path);
    if conflict then Run(!folderExists, materialName, Cancelled, [], map[], [AlreadyExists(materialName)])
    else
      var pr := Process(files, Classifications(files, token), imported);
      var outcome := match pr.crashed
        case Some(file) => Aborted(file)
        case None => Saved(SavePath(materialName));
      Run(!folderExists, materialName, outcome, pr.copies, pr.slots, pr.log)
  }

  /**
   * The command: `path` is the chosen folder, `files` its files in the order
   * the file system lists them, `prefixToken` the option whose first
   * character marks the texture type, `folderExists` and `conflict` what the
   * asset database answers, and `imported[i]` whether the copy and import of
   * `files[i]` succeed.
   */
  method TakeTextures(path: string, files: seq<string>, prefixToken: string,
                      folderExists: bool, conflict: bool, imported: seq<bool>) returns (run: Run)
    requires |prefixToken| > 0
    requires |imported| == |files|
    ensures run == TakeTexturesSpec(path, files, prefixToken[0], folderExists, conflict, imported)
  {
    var token := prefixToken[0];
    var createdFolder := !folderExists;
    var materialName := BaseName(path);
    if conflict {
      return Run(createdFolder, materialName, Cancelled, [], map[], [AlreadyExists(materialName)]);
    }
    var slots: map<Slot, string> := map[];
    var copies: seq<string> := [];
    var log: seq<Message> := [];
    ghost var cs := Classifications(files, token);
    for i := 0 to |files|
      invariant Process(files[..i], cs[..i], imported[..i]) == Progress(slots, copies, log, None)
    {
      var file := files[i];
      var c := Classify(file, token);
      assert c == cs[i];
      ProcessPrefix(files, cs, imported, i);
      match c
      case NotImage =>
      case NoPrefixToken =>
      case BadSubstring =>
        CrashStops(files, cs, imported, i + 1);
        return Run(createdFolder, materialName, Aborted(file), copies, slots, log);
      case Texture(textureType, newFile) =>
        copies := copies + [CopyPath(newFile)];
        if imported[i] {
          match SlotFor(textureType)
          case Some(slot) =>
            slots := slots[slot := file];
          case None =>
            log := log + [UnknownSuffix(textureType)];
        } else {
          log := log + [CouldNotImport(file)];
        }
    }
    assert files[..|files|] == files && cs[..|cs|] == cs && imported[..|imported|] == imported;
    return Run(createdFolder, materialName, Saved(SavePath(materialName)), copies, slots, log);
  }

  /**
   * A saved material has a texture in a slot exactly when some file is an
   * imported texture whose type selects that slot, and then it is the last
   * such file in the listing.
   */
  lemma TakeTexturesSlots(path: string, files: seq<string>, token: char,
                          folderExists: bool, conflict: bool, imported: seq<bool>, slot: Slot)
    requires |imported| == |files|
    requires TakeTexturesSpec(path, files, token, folderExists, conflict, imported).outcome.Saved?
    ensures var run := TakeTexturesSpec(path, files, token, folderExists, conflict, imported);
            slot in run.slots <==> exists j :: 0 <= j < |files| && Fills(Classify(files[j], token), imported[j], slot)
    ensures var run := TakeTexturesSpec(path, files, token, folderExists, conflict, imported);
            slot in run.slots ==>
              exists j :: Witness(files, Classifications(files, token), imported, slot, run.slots[slot], j)
  {
    var cs := Classifications(files, token);
    SlotsFilled(files, cs, imported, slot);
    SlotsLastWriteWins(files, cs, imported, slot);
    assert forall j :: 0 <= j < |files| ==> cs[j] == Classify(files[j], token);
  }

  /**
   * The command aborts exactly when there is no conflict and some file's
   * texture-type substring is malformed, and then at the first such file.
   */
  lemma TakeTexturesAborts(path: string, files: seq<string>, token: char,
                           folderExists: bool, conflict: bool, imported: seq<bool>)
    requires |imported| == |files|
    ensures var run := TakeTexturesSpec(path, files, token, folderExists, conflict, imported);
            run.outcome.Aborted? <==>
              !conflict && exists j :: 0 <= j < |files| && Classify(files[j], token).BadSubstring?
    ensures var run := TakeTexturesSpec(path, files, token, folderExists, conflict, imported);
            run.outcome.Aborted? ==>
              exists j :: 0 <= j < |files| && run.outcome.file == files[j] &&
                Classify(files[j], token).BadSubstring? &&
                forall k :: 0 <= k < j ==> !Classify(files[k], token).BadSubstring?
  {
    var cs := Classifications(files, token);
    CrashIsFirstBadFile(files, cs, imported);
    assert forall j :: 0 <= j < |files| ==> cs[j] == Classify(files[j], token);
  }

  /**
   * Every copy the command attempts goes into the export folder under the
   * base name of a file classified as a texture; files that are not images,
   * or lack the token, are never copied.
   */
  lemma TakeTexturesCopies(path: string, files: seq<string>, token: char,
                           folderExists: bool, conflict: bool, imported: seq<bool>)
    requires |imported| == |files|
    ensures var run := TakeTexturesSpec(path, files, token, folderExists, conflict, imported);
            |run.copies| <= |files| &&
            forall p :: p in run.copies ==>
              exists j :: 0 <= j < |files| && Classify(files[j], token).Texture? &&
                p == CopyPath(BaseName(files[j]))
    ensures var run := TakeTexturesSpec(path, files, token, folderExists, conflict, imported);
            run.outcome.Saved? ==> run.copies == TextureCopies(Classifications(files, token))
  {
    var cs := Classifications(files, token);
    CopiesAreTextures(files, cs, imported);
    if !conflict && Process(files, cs, imported).crashed.None? {
      CopiesInOrder(files, cs, imported);
    }
    forall j | 0 <= j < |files| && cs[j].Texture?
      ensures Classify(files[j], token).Texture? && cs[j].newFile == BaseName(files[j])
    {
      assert cs[j] == Classify(files[j], token);
      ClassifyTexture(files[j], token);
    }
  }

  /**
   * When the command aborts, it does so at the first malformed file, and the
   * copies attempted are the reference list of the files before it: every
   * texture before that file is copied, in file order.
   */
  lemma TakeTexturesCopiesBeforeAbort(path: string, files: seq<string>, token: char,
                                      folderExists: bool, conflict: bool, imported: seq<bool>, j: int)
    requires |imported| == |files|
    requires !conflict
    requires 0 <= j < |files| && Classify(files[j], token).BadSubstring?
    requires forall k :: 0 <= k < j ==> !Classify(files[k], token).BadSubstring?
    ensures var run := TakeTexturesSpec(path, files, token, folderExists, conflict, imported);
            run.outcome == Aborted(files[j]) && run.copies == TextureCopies(Classifications(files, token)[..j])
  {
    var cs := Classifications(files, token);
    assert cs[j] == Classify(files[j], token);
    assert forall k :: 0 <= k < j ==> cs[k] == Classify(files[k], token);
    CopiesBeforeCrash(files, cs, imported, j);
  }
}
