# TextureTaker import command, modelled in Dafny

TextureTaker (`TTaker.cs`) is an editor command for a game engine. It takes a
folder of texture images and builds one Standard-shader material from them:

- The folder's name becomes the material name (`path` after its last `/` or `\`).
- The command is cancelled when the asset search already finds a material of
  that name in `Assets/Materials`.
- Otherwise, every file whose upper-cased extension is one of PSD, TIFF, JPG,
  TGA, PNG, GIF, BMP and that has the prefix token (`_` by default) after
  index 0 is copied into `Assets/Materials` under its own file name.
- It is then attached to the texture slot its suffix selects: the text between
  the last token and the last dot, matched case-sensitively against
  d/c/a, s/m, b/n, h, ao, e.
- Finally the material is saved as `Assets/Materials/<name>.mat`.

The project has five modules:

- `Wrappers` (wrappers.dfy): the `Option` type.
- `Paths` (paths.dfy): the ordinal `LastIndexOf`, `AddPath`, `LastSlash` and
  the base name of a path.
- `Classifier` (classifier.dfy): extension, ASCII upper-casing, the accepted
  type list, and `Classify`, which decides what the loop body does with one file:
  - not an image;
  - an image without a usable token;
  - an image whose texture-type `Substring` throws;
  - a texture with its type and copied name.
- `SlotTable` (slots.dfy): the texture-type `switch` as `SlotFor`, the table
  of suffixes per slot, and the shader property names.
- `Importer` (importer.dfy):
  - one pass of the loop body as `Step`;
  - the loop as the fold `Process`;
  - the specification function `TakeTexturesSpec`;
  - the imperative `TakeTextures`, a `for` loop over the files with an early
    return, proved equal to that specification.

The engine is replaced by inputs:

- `folderExists`: whether `Assets/Materials` is already a folder.
- `conflict`: whether the asset search found a material.
- `imported[i]`: whether the copy, refresh and load of `files[i]` succeed
  without throwing.

The material is a map from slot to the source file attached there. A run
reports:

- whether the folder was created;
- the material name;
- the outcome: cancelled, aborted at a file, or saved at a path;
- the destination paths of the attempted copies;
- the slots;
- the log messages.

Behaviour worth knowing:

- An image without the token is skipped, and the loop goes on with the next file.
- A file with an unlisted extension is skipped the same way.
- One folder gives one material.
- An existing material of the same name in the export folder cancels the import.
- The export folder is created before the conflict check, so a cancelled run
  may still have created it.
- A prefix token found at or after the last dot stops the run:
  - the token is `.` itself, or a letter of the extension;
  - `Substring` at line 105 then gets a negative length and throws;
  - this happens outside the `try`, so the command ends there.
  - Copies already made stay. No material is saved.

## Model

| member | source | states |
|---|---|---|
| `Paths.Max` | TTaker.cs:51 | the result is at least both arguments and is one of them |
| `Paths.LastIndexOf` | TTaker.cs:48-49 | the ordinal last-index search; its range is -1 up to the last index (own ensures); what it finds is stated by `LastIndexOfSpec`, `LastIndexOfUnique` and `LastIndexOfAbsent` |
| `Paths.LastIndexOfSpec` | TTaker.cs:48-49 | the index found holds the character and no later index does |
| `Paths.LastIndexOfUnique` | TTaker.cs:48-49 | any index with those two properties is the one the search returns |
| `Paths.LastIndexOfAbsent` | TTaker.cs:48-49 | the search gives -1 exactly when the character does not occur |
| `Paths.LastIndexOfAppend` | TTaker.cs:94 | the last occurrence in `x + y` is in `y` when `y` has the character, else it is the last one in `x` |
| `Paths.AddPath` | TTaker.cs:41-44 | the joined path is one longer than its parts together (own ensures); its layout is stated by `AddPathShape` |
| `Paths.AddPathShape` | TTaker.cs:41-44 | the joined path is one character longer than its two parts together, starts with `a`, has `/` next and ends with `b` |
| `Paths.LastSlash` | TTaker.cs:46-52 | the index is -1 or a position in the path (own ensures); which slash it is is stated by `LastSlashSpec` |
| `Paths.LastSlashSpec` | TTaker.cs:46-52 | the index is a slash of either kind, no slash follows it, and it is -1 exactly when the path has no slash |
| `Paths.BaseName` | TTaker.cs:79 | the base name is no longer than the path (own ensures); its shape is stated by `BaseNameShape` and `BaseNameOfAddPath` |
| `Paths.BaseNameShape` | TTaker.cs:79 | the base name is a slash-free suffix of the path, preceded by a slash unless it is the whole path, and is the whole path when there is no slash |
| `Paths.BaseNameOfAddPath` | TTaker.cs:106-108 | the base name of `a/b` is `b` when `b` has no slash |
| `Classifier.ToUpper` | TTaker.cs:97 | upper-casing keeps the length (own ensures); the characters are stated by `ToUpperAt` and `ToUpperTail` |
| `Classifier.ToUpperAt` | TTaker.cs:97 | each character of the upper-cased string is the upper-cased character |
| `Classifier.ToUpperTail` | TTaker.cs:97 | upper-casing a tail is the tail of the upper-cased string |
| `Classifier.Extension` | TTaker.cs:94-97 | the extension is no longer than the name (own ensures); its shape is stated by `ExtensionShape` and `ExtensionOfJoin` |
| `Classifier.ExtensionShape` | TTaker.cs:94-97 | the extension is a dot-free suffix, preceded by a dot unless it is the whole name, and is the whole name when there is no dot |
| `Classifier.ExtensionOfJoin` | TTaker.cs:94-97 | the extension of `stem.ext` is `ext` when `ext` has no dot |
| `Classifier.Contains` | TTaker.cs:97 | the front-to-back search of `ArrayUtility.Contains`; what it decides is stated by `ContainsIsMembership` |
| `Classifier.ContainsIsMembership` | TTaker.cs:97 | the array search finds a string exactly when it is in the list |
| `Classifier.IsAcceptedType` | TTaker.cs:97 | the test `ArrayUtility.Contains(fileTypes, ext.ToUpper())`; it means the upper-cased text is one of the listed types (`ContainsIsMembership`), ignores case (`ImageIgnoresCase`) and is checked on examples by `MixedCaseAccepted` and `UnlistedRejected` |
| `Classifier.IsImage` | TTaker.cs:94-97 | the acceptance test applied to the text after the last dot; `ClassifyNotImage` states that a file is skipped as not an image exactly when it fails |
| `Classifier.Classify` | TTaker.cs:94-106 | the branches of the loop body before the copy; a texture's type and copy name are shorter than the file (own ensures); its four outcomes are characterised by `ClassifyNotImage`, `ClassifyNoPrefixToken`, `ClassifyBadSubstring` and `ClassifyTexture` |
| `Classifier.ClassifyNotImage` | TTaker.cs:94-97 | a file is rejected as not an image exactly when its upper-cased extension is not a listed type |
| `Classifier.ClassifyNoPrefixToken` | TTaker.cs:100-103 | an image is skipped exactly when the token occurs nowhere after index 0 |
| `Classifier.ClassifyBadSubstring` | TTaker.cs:105 | the texture-type substring throws exactly for an image whose last token is after index 0 and has no dot after it |
| `Classifier.ClassifyTexture` | TTaker.cs:100-106 | a texture's name reads rest, token, texture type, dot, extension from the end; the type holds no token; the copy name is the base name |
| `Classifier.ImageIgnoresCase` | TTaker.cs:96-97 | two names equal up to upper-casing are both images or both not |
| `Classifier.MixedCaseAccepted` | TTaker.cs:97 | `x_a.PnG` is an image |
| `Classifier.UnlistedRejected` | TTaker.cs:37 | `x_a.jpeg` is not an image |
| `Classifier.ClassifyAt` | TTaker.cs:94-106 | when the token is at `p > 0` and nowhere after it, and a dot is at `d > p` and no dot follows, the text between them is the texture type and the copy name is the base name if the text after the dot is an accepted type; otherwise the file is not an image |
| `Classifier.ClassifyRoundTrip` | TTaker.cs:94-106 | parsing `dir/name` + token + suffix + `.` + ext gives back the suffix as the texture type, or not-an-image when ext is not accepted |
| `Classifier.TokenInDirectory` | TTaker.cs:100-105 | a token found only in a directory is used, and the texture type then runs across the slash |
| `Classifier.DotTokenFails` | TTaker.cs:105 | with `.` as token, `C:/tex/wood_a.png` makes the substring throw |
| `Classifier.ExtensionTokenFails` | TTaker.cs:105 | with `g` as token, `C:/tex/wood_a.png` makes the substring throw |
| `SlotTable.PropertyName` | TTaker.cs:122-139 | the six `SetTexture` property names, one per slot; `PropertyNameInjective` states that no two slots share one |
| `SlotTable.PropertyNameInjective` | TTaker.cs:117-140 | different slots are set through different shader properties |
| `SlotTable.SlotFor` | TTaker.cs:117-144 | the switch; only one- and two-letter types select a slot (own ensures); the cases are stated by `SlotForTable` and `SlotForUnknown` |
| `SlotTable.SlotForTable` | TTaker.cs:117-140 | the switch selects a slot exactly for the suffixes the table lists for that slot |
| `SlotTable.SlotForUnknown` | TTaker.cs:141-143 | the default branch is taken exactly for suffixes outside the table |
| `SlotTable.SuffixesDisjoint` | TTaker.cs:117-140 | no suffix selects two slots |
| `SlotTable.UpperCaseUnknown` | TTaker.cs:117-143 | the upper-cased form of every known suffix falls into the default branch |
| `Importer.ExportPath` | TTaker.cs:70-72 | the export folder is `Assets/Materials` |
| `Importer.SavePath` | TTaker.cs:154 | the save path is 21 characters longer than the name (own ensures); its text is stated by `SavePathLiteral` and `SavePathInjective` |
| `Importer.SavePathLiteral` | TTaker.cs:154 | the material is saved at `Assets/Materials/` + name + `.mat` |
| `Importer.SavePathInjective` | TTaker.cs:154 | different names are saved at different paths |
| `Importer.CopyPath` | TTaker.cs:108 | the copy destination is 17 characters longer than the file name (own ensures); its text is stated by `CopyPathLiteral` |
| `Importer.CopyPathLiteral` | TTaker.cs:108 | a texture is copied to `Assets/Materials/` + its file name |
| `Importer.Step` | TTaker.cs:94-149 | one pass of the loop body; what it changes is stated by `StepFacts` and `StepSlot` |
| `Importer.StepFacts` | TTaker.cs:94-149 | after a throw nothing changes; non-textures change only the crash flag; the throw names the file; a texture is copied into the export folder; a failed import is logged and changes no slot |
| `Importer.Fills` | TTaker.cs:110-140 | the condition under which one pass sets a slot: an imported texture whose type selects it; `StepSlot`, `SlotsFilled`, `SlotsLastWriteWins` and `TakeTexturesSlots` are stated with it |
| `Importer.StepSlot` | TTaker.cs:117-144 | an imported texture sets the slot its type selects to the file and leaves every other slot as it was |
| `Importer.Process` | TTaker.cs:91-152 | the loop as a fold of `Step`; what it computes is stated by `CrashStops`, `CrashIsFirstBadFile`, `SlotsFilled`, `SlotsLastWriteWins`, `CopiesAreTextures`, `CopiesInOrder` and `CopiesBeforeCrash` |
| `Importer.ProcessPrefix` | TTaker.cs:91-152 | helper for the loop proof: the state after `i + 1` files is one more pass over the state after `i` |
| `Importer.CrashStops` | TTaker.cs:105 | once a file has thrown, the files after it change nothing |
| `Importer.CrashIsFirstBadFile` | TTaker.cs:91-105 | the loop throws exactly when some file is malformed, and then at the first one |
| `Importer.SlotsFilled` | TTaker.cs:91-144 | after the loop a slot is set exactly when some imported texture's type selects it |
| `Importer.SlotsLastWriteWins` | TTaker.cs:91-144 | a set slot holds the last file in the listing that fills it |
| `Importer.CopiesAreTextures` | TTaker.cs:106-112 | each attempted copy goes to the export folder under the copy name of some texture file, and there are no more copies than files |
| `Importer.TextureCopies` | TTaker.cs:106-112 | reference list of copies: one destination per texture, in file order; never longer than the list of files |
| `Importer.CopiesInOrder` | TTaker.cs:91-112 | when no file throws, the attempted copies are exactly the reference list, in order |
| `Importer.CopiesBeforeCrash` | TTaker.cs:91-112 | when file `j` is the first malformed one, the loop throws at it and the copies are exactly the reference list of the files before it |
| `Importer.TakeTexturesSpec` | TTaker.cs:64-155 | the folder is created iff missing; the name is the folder's base name; a conflict cancels with no copy, no slot and one message; a saved material goes to its save path |
| `Importer.TakeTextures` | TTaker.cs:64-155 | the imperative command returns exactly what the specification function describes |
| `Importer.TakeTexturesSlots` | TTaker.cs:91-154 | a saved material has a slot set iff some imported texture selects it, and then it holds the last such file |
| `Importer.TakeTexturesAborts` | TTaker.cs:91-105 | the command aborts iff there is no conflict and some file is malformed, and then at the first such file |
| `Importer.TakeTexturesCopies` | TTaker.cs:106-112 | every attempted copy is the `CopyPath` of a texture file's base name, which `CopyPathLiteral` spells as `Assets/Materials/` + that name; non-images and files without the token are never copied; a saved run copied exactly the textures, in file order |
| `Importer.TakeTexturesCopiesBeforeAbort` | TTaker.cs:91-112 | a run aborted at the first malformed file copied exactly the textures before it, in file order |

## Left out

- Each engine call becomes an input, and some are left out:
  - The folder dialog becomes the `path` parameter.
  - `Directory.GetFiles` becomes the `files` sequence, in whatever order the file system gives.
  - `IsValidFolder` and `CreateFolder` become `folderExists` and the `createdFolder` result.
  - The fuzzy `FindAssets` name search becomes the `conflict` input.
  - `Shader.Find` and `new Material` are not modelled.
- `File.Copy`, `Refresh`, `LoadAssetAtPath` and the `Texture2D` cast are one
  success oracle per file. Three things are not modelled:
  - whether the copied file stays in place when a later step of the same `try` throws;
  - a load that returns null and attaches a null texture;
  - why a copy fails (a destination that already exists, for one).
- `Debug.Log` becomes a list of message values. The exact message text is not modelled.
- The options window (`OnGUI`, `SetOptions`) is not modelled. A non-empty
  `PrefixToken` is a precondition of `TakeTextures`: `PrefixToken[0]` throws for an empty one.
- `String.ToUpper` maps only the ASCII letters, because the culture-dependent
  mapping of the runtime is not modelled.
- C# strings are UTF-16 code units; the model uses Dafny's `char` and does not model surrogate pairs.
- Writing the material asset to disk is the `Saved` outcome.
