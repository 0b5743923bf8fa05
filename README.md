# Slicer Launcher file associations, modelled in Dafny

Slicer Launcher is a small Windows desktop tool that opens 3D model files in
one of several slicer programs. It can register itself as the handler of the file
extensions in its configuration, and it can remove that registration again.
Both operations work only on the per-user registry hive (HKEY_CURRENT_USER).

This project models those two operations and the helper that deletes a registry
key tree. The registry is modelled as an abstract store: a map from key paths
(sequences of segment names below the hive root) to each key's named values.
Every key's ancestors are always present in the store. Access rights are
modelled by a fixed set `denied` of keys that refuse to be opened for writing,
created, written or deleted; the hive root refuses too.

- `Names`: how a backslash-separated sub-key path string splits into
  segments, and the lexicographic order in which sub-keys are enumerated.
- `Registry`: the store, the `winreg` calls the launcher makes, as the methods
  of the `Hive` class (`CreateKey`, `OpenKey`, `QueryValue`, `SetValue`,
  `DeleteValue`, `EnumKey`, `DeleteKey`), and the pure functions that specify them.
- `LauncherKeys`: the ProgID `SlicerLauncher.File`, extension normalisation,
  the key paths derived from an extension, and the icon and command strings.
- `Associate`: `associate_files`. For each extension there are six required
  writes. The first refused write fails the extension, and writes made before it
  stay. A seventh write, to the per-user FileExts list, is best effort.
  `AssociateFiles` returns the associated and failed lists and the overall verdict.
- `KeyDeletion`: `_delete_registry_key`. It opens the key for full access,
  enumerates its sub-keys, deletes each recursively, then deletes the key.
  Every registry error is swallowed.
- `Unassociate`: `unassociate_files`. For each extension it clears the default
  only where it names the ProgID, and removes the ProgID from both
  OpenWithProgids lists. Then it tries to delete the ProgID's key tree.

Each method is proved against a pure function of the old store. The properties
are proved as lemmas about those functions:
- which extensions succeed;
- the record a success leaves behind;
- idempotence;
- best-effort writes never fail an extension;
- unassociation removes only the launcher's own values;
- associating and then unassociating removes the registration;
- the recursive deletion removes everything under the target except the
  protected keys, their ancestors and their descendants.

## Model

| member | source | states |
|---|---|---|
| LauncherKeys.Normalize | slicer_launcher.py:197-199 | the result starts with a dot, and is the extension itself when it already did, otherwise the extension with one dot in front |
| LauncherKeys.NormalizeIdempotent | slicer_launcher.py:297-299 | normalising an already normalised extension changes nothing |
| LauncherKeys.NormalizeKeepsSuffix | slicer_launcher.py:197-199 | the configured extension is exactly what follows the added dot |
| LauncherKeys.IconValue | slicer_launcher.py:226 | the icon reference is the launcher path followed by `,0` |
| LauncherKeys.CommandValue | slicer_launcher.py:232 | the command is the quoted launcher path, a space, and the quoted `%1` placeholder |
| LauncherKeys.KeyShapes | slicer_launcher.py:205-237 | an extension's class keys lie under Software\Classes but never under the ProgID's key, and its FileExts key lies under Software\Microsoft |
| LauncherKeys.ExtKeyInjective | slicer_launcher.py:205 | two extensions share a class key only when they are the same extension |
| LauncherKeys.ExtKey | slicer_launcher.py:205 | the extension's class key: Software\Classes followed by the segments of the extension |
| LauncherKeys.OpenWithKey | slicer_launcher.py:211 | the OpenWithProgids sub-key of the extension's class key, the same key the removal opens at line 317 |
| LauncherKeys.UserChoiceKey | slicer_launcher.py:237 | the OpenWithProgids sub-key of the extension under the per-user Explorer FileExts key, the same key the removal opens at line 326 |
| Names.Split | slicer_launcher.py:205 | a key path string is cut at every backslash into backslash-free segments |
| Names.JoinSplit | slicer_launcher.py:205 | joining the segments with backslashes gives the path string back |
| Names.SplitInjective | slicer_launcher.py:205 | distinct path strings name distinct keys |
| Names.SortedNames | slicer_launcher.py:367-374 | the enumeration order lists every sub-key name once, in increasing order |
| Registry.Created | slicer_launcher.py:206 | CreateKey adds the key and every missing ancestor, and changes no value |
| Registry.CreatedExisting | slicer_launcher.py:218 | creating a key that exists changes nothing |
| Registry.Put | slicer_launcher.py:207 | SetValueEx sets one value and leaves every other value unchanged |
| Registry.Cleared | slicer_launcher.py:308 | DeleteValue removes one value of an existing key and nothing else |
| Registry.Children | slicer_launcher.py:367-374 | the names of a key's direct sub-keys, exactly |
| Registry.SubkeyNames | slicer_launcher.py:367-374 | the sub-key names in enumeration order: each direct sub-key once |
| Registry.Subtree | slicer_launcher.py:361-382 | a key and every existing key below it |
| Registry.Hive.CreateKey | slicer_launcher.py:206 | succeeds exactly on an unprotected key, and the store then has the key created |
| Registry.Hive.OpenKey | slicer_launcher.py:304 | succeeds exactly when the key exists and, for writing, is unprotected |
| Registry.Hive.QueryValue | slicer_launcher.py:305 | returns the value when both key and value exist, otherwise the call raises |
| Registry.Hive.SetValue | slicer_launcher.py:207 | succeeds on an existing unprotected key, and only that value changes |
| Registry.Hive.DeleteValue | slicer_launcher.py:308 | succeeds when the key is writable and the value exists, and only that value goes |
| Registry.Hive.EnumKey | slicer_launcher.py:371 | returns the i-th sub-key name, and raises once i is past the last one |
| Registry.Hive.DeleteKey | slicer_launcher.py:380 | removes an unprotected existing key only when it has no sub-keys |
| Associate.Apply | slicer_launcher.py:206-207 | a successful write sets its value, creates the key's chain, and changes nothing else |
| Associate.RequiredWrites | slicer_launcher.py:205-233 | the six writes every extension needs, in source order: default := ProgID, OpenWithProgids entry, ProgID description and friendly name, icon, command |
| Associate.BestEffortWrite | slicer_launcher.py:237-240 | the per-user FileExts OpenWithProgids entry, whose failure is ignored |
| Associate.ApplyWrites | slicer_launcher.py:204-234 | the writes made one after the other until the first refused one, which is reported |
| Associate.AssociateExt | slicer_launcher.py:204-243 | the per-extension block: the required writes; then, only when none was refused, the best-effort write |
| Associate.AssociateAll | slicer_launcher.py:195-249 | the loop over the configured extensions: each is normalised, its block is run, and it is appended to the associated list or to the failed list with the refused key |
| Associate.Accepted | slicer_launcher.py:245 | reference filter: the normalised configured extensions whose required keys are all writable, in input order |
| Associate.Rejected | slicer_launcher.py:247-248 | reference filter: the other normalised configured extensions, in input order, each with its first protected required key |
| Associate.ApplyWritesRefusal | slicer_launcher.py:204-234 | the writes stop at the first protected key, whatever the store holds |
| Associate.AssociateExtOutcome | slicer_launcher.py:204-248 | an extension fails exactly when a required key is protected, and the failure names the first such key |
| Associate.AcceptedRejectedCount | slicer_launcher.py:245-248 | every extension is counted once, in exactly one of the two lists |
| Associate.AssociateAllAccounts | slicer_launcher.py:195-249 | the associated list holds, in input order, the normalised extensions whose required keys are all writable; the failed list holds the rest with the refusing key |
| Associate.AcceptedNonEmpty | slicer_launcher.py:253-254 | something is associated exactly when some extension has all its required keys writable |
| Associate.OverallFailure | slicer_launcher.py:264-267 | the failure dialog is shown exactly when every extension had a protected required key |
| Associate.BestEffortIgnored | slicer_launcher.py:236-243 | refusals on the FileExts keys never change the associated or failed lists |
| Associate.AssociateExtOverlay | slicer_launcher.py:204-243 | one extension's registration lays the same entries over any store |
| Associate.AssociateAllOverlay | slicer_launcher.py:195-249 | the whole loop lays the same entries over any store, with the same lists |
| Associate.AssociateIdempotent | slicer_launcher.py:195-249 | running the association twice gives the same store and the same lists as running it once |
| Associate.WritesCompatible | slicer_launcher.py:204-240 | no two extensions' writes give one value two different contents |
| Associate.AssociateExtWritesRecord | slicer_launcher.py:204-234 | a successful registration leaves all six entries of its record |
| Associate.AssociateExtKeepsRecord | slicer_launcher.py:204-243 | a registration never spoils another extension's record |
| Associate.AssociateAllRecords | slicer_launcher.py:195-249 | after the loop every associated extension has its full record, even when later extensions failed |
| Associate.BestEffortCompatible | slicer_launcher.py:237-240 | an extension's FileExts entry shares no value with any required write of any extension, and agrees with the other FileExts writes |
| Associate.AssociateExtBestEffort | slicer_launcher.py:236-243 | a successful registration whose FileExts key accepts writes leaves the ProgID in that key's OpenWithProgids list |
| Associate.AssociateExtKeepsBestEffort | slicer_launcher.py:204-243 | a registration never removes another extension's FileExts entry |
| Associate.BestEffortStep | slicer_launcher.py:236-245 | one turn of the loop keeps the FileExts entries of the extensions associated so far, and adds the current one's when it succeeds and its FileExts key accepts writes |
| Associate.AssociateAllBestEffort | slicer_launcher.py:195-249 | after the loop every associated extension whose FileExts key accepts writes has the ProgID in that key's OpenWithProgids list |
| Associate.RecordEntries | slicer_launcher.py:204-234 | the record: default is the ProgID, the OpenWithProgids entry exists, and the ProgID's description, friendly name, icon and command are set |
| Associate.AssociateExtFrame | slicer_launcher.py:204-243 | a registration changes only the values it writes and removes no key |
| Associate.FailureNotRolledBack | slicer_launcher.py:204-214 | an extension refused at its OpenWithProgids key is reported failed, yet its default already names the ProgID |
| Associate.WriteEntry | slicer_launcher.py:206-208 | CreateKey then SetValueEx: succeeds exactly on an unprotected key, with the write applied |
| Associate.WriteRequired | slicer_launcher.py:204-234 | the six required writes, stopping at the first refusal, agree with their specification |
| Associate.AssociateOne | slicer_launcher.py:196-245 | the per-extension block agrees with its specification, the best-effort write included |
| Associate.AssociateFiles | slicer_launcher.py:195-267 | the loop yields the specified store and lists, and the verdict is success exactly when something was associated |
| KeyDeletion.Kept | slicer_launcher.py:361-382 | a key survives the deletion of the target when some protected key under the target is that key, an ancestor of it or a descendant of it: a protected key cannot be opened, and an ancestor still has a sub-key when its DeleteKey runs |
| KeyDeletion.TreeDeleted | slicer_launcher.py:361-382 | the store after the recursive deletion: every key under the target is gone except those Kept, and all other keys keep their values |
| KeyDeletion.TreeDeletedOutside | slicer_launcher.py:361-382 | recursive deletion only removes keys, only keys under the target, and changes no surviving value |
| KeyDeletion.TreeDeletedRemovesAll | slicer_launcher.py:361-382 | with nothing protected under the target, nothing under it survives |
| KeyDeletion.TreeDeletedUnopened | slicer_launcher.py:363-364 | a key that is absent or cannot be opened for full access leaves the store unchanged |
| KeyDeletion.ChildNext | slicer_launcher.py:376-377 | deleting the sub-keys one after the other is the same as deleting them all at once |
| KeyDeletion.ChildSubtreeSmaller | slicer_launcher.py:376-377 | each recursive call works on a strictly smaller part of the store |
| KeyDeletion.ChildrenLeft | slicer_launcher.py:376-380 | after its sub-keys are deleted, the key still has one exactly when something protected was below it |
| KeyDeletion.FinalStep | slicer_launcher.py:379-382 | the last DeleteKey, which fails silently while sub-keys remain, completes the deletion |
| KeyDeletion.ListSubkeys | slicer_launcher.py:367-374 | EnumKey with index 0, 1, ... until it raises collects every sub-key name in enumeration order |
| KeyDeletion.DeleteRegistryKey | slicer_launcher.py:361-382 | the recursive deletion leaves exactly the keys outside the target, plus the protected keys under it with their ancestors and descendants |
| Unassociate.ClearDefault | slicer_launcher.py:302-313 | the default is deleted exactly when the key is writable and names the ProgID; nothing else changes |
| Unassociate.DropProgId | slicer_launcher.py:316-322 | the ProgID's value is gone from a writable key; nothing else changes |
| Unassociate.UnassociateExt | slicer_launcher.py:301-331 | the per-extension block: clear the default if it names the ProgID, then drop the ProgID from the Classes and then the FileExts OpenWithProgids key |
| Unassociate.UnassociateAll | slicer_launcher.py:295-334 | the loop over the configured extensions: each is normalised, its block is run, and it is appended to the removed list when its default was deleted |
| Unassociate.IsTargetIff | slicer_launcher.py:301-331 | the values the loop may delete are exactly the defaults and ProgID values on some configured extension's writable keys |
| Unassociate.UnassociateExtFrame | slicer_launcher.py:301-331 | one extension's removal only deletes values, and only its own targets |
| Unassociate.UnassociateAllFrame | slicer_launcher.py:295-334 | the loop deletes values only (no key goes, no value is rewritten), only on targets, and never a default that names another program |
| Unassociate.UnassociateExtClears | slicer_launcher.py:301-331 | after one extension's removal, its writable keys hold no trace of the ProgID |
| Unassociate.UnassociateAllClears | slicer_launcher.py:295-334 | after the loop, no configured extension's writable keys hold a trace of the ProgID |
| Unassociate.RemovedExactly | slicer_launcher.py:305-309 | the removed list holds exactly the configured extensions whose writable default named the ProgID before the loop, each once |
| Unassociate.DefaultAtTurn | slicer_launcher.py:302-310 | when the loop reaches an extension, its default still names the ProgID exactly when it did before and no earlier entry was the same extension |
| Unassociate.NothingFound | slicer_launcher.py:350-351 | "no associations were found" is shown exactly when no configured extension's writable default named the ProgID |
| Unassociate.AcceptedFrom | slicer_launcher.py:245 | every associated extension is a configured one, normalised, with all required keys writable |
| Unassociate.AssociateThenUnassociate | slicer_launcher.py:295-334 | unassociating after associating reports every associated extension as removed, and leaves its default and its OpenWithProgids entry absent |
| Unassociate.RegistrationUndone | slicer_launcher.py:302-322 | a complete record on writable keys, after removal, has neither its default nor its OpenWithProgids entry left |
| Unassociate.AsWrittenKeepsProgId | slicer_launcher.py:336-341 | as written, the ProgID's key and everything below it survive unassociation unchanged |
| Unassociate.CorrectedRemovesProgId | slicer_launcher.py:336-341 | corrected, the ProgID's key tree is gone when nothing in it is protected, and every other key keeps its values |
| Unassociate.RemoveProgIdValue | slicer_launcher.py:316-322 | OpenKey for writing, then DeleteValue, agrees with its specification |
| Unassociate.UnassociateOne | slicer_launcher.py:296-331 | the per-extension block agrees with its specification |
| Unassociate.UnassociateEach | slicer_launcher.py:295-334 | the loop yields the specified store and removed list, and an empty failed list |
| Unassociate.UnassociateFilesAsWritten | slicer_launcher.py:290-341 | as written: the loop only, with the ProgID tree untouched |
| Unassociate.UnassociateFiles | slicer_launcher.py:290-341 | corrected: the loop, then the recursive deletion of the ProgID's key tree |

## Left out

- The dialogs (confirmation, warnings, result messages) and their text are not
  modelled, and neither is the console `print` of each association failure
  (line 249). Only the decisions the dialogs show are modelled: the overall
  verdict and the "none found" case.
- The configuration file, the slicer launching and the rest of the user interface
  are outside the file-association code.
- The Windows-only platform check and the script-versus-executable choice of the
  launcher path are not modelled. The path is a parameter `app`.
- Real access control is not modelled. It is abstracted to the fixed set
  `denied`, and only calls on those keys (or the hive root) raise. Other
  `winreg` failures are not modelled: full hives, keys changed concurrently by
  other programs, and invalid names. An extension containing a NUL character,
  for instance, makes `winreg` raise ValueError rather than an OSError. That
  lands it on the failed list of either operation (206 to 247-248, 304 to
  333-334), because the inner `except WindowsError` clauses do not catch it.
- Registry key names are case-insensitive, but the model compares them
  exactly, so two extensions differing only in case are different keys here.
- `CloseKey` is not modelled, because it changes nothing in the store.
- Value types are reduced to REG_SZ text and empty REG_NONE data.
- Configuration entries that are not strings are not modelled. In the source
  they make `ext.startswith` raise, which lands them on the failed list of
  either operation; the model takes the extensions as strings. As a result the
  unassociation failed list is always empty here. In the source it is empty
  for every string extension that `winreg` accepts as a key name, because each
  registry step catches its own `WindowsError`.
- The enumeration order of sub-keys is fixed to increasing name order. The
  deletion result does not depend on it.
- Enumeration is modelled on a store that does not change between EnumKey calls.
- Exceptions are modelled as the `ok`/`Option` results of the `Hive` methods.
  Which handler swallows which failure follows the source.

## Findings

| source | as written | input that shows it | evidently intended | confidence | as-written member | corrected member |
|---|---|---|---|---|---|---|
| slicer_launcher.py:361-364 | `_delete_registry_key` calls `winreg.OpenKey`, but `winreg` is imported only locally inside `associate_files` and `unassociate_files`. The call raises NameError, which is not caught by `except WindowsError`, and the bare `except` at 340-341 then swallows it. | Any unassociation where `Software\Classes\SlicerLauncher.File` exists (for example right after a successful association): the ProgID key with its DefaultIcon and shell\open\command sub-keys stays. | Delete the ProgID's key tree, as the comment at line 336 says. | not executed | Unassociate.UnassociateFilesAsWritten, Unassociate.AsWrittenKeepsProgId | Unassociate.UnassociateFiles, Unassociate.CorrectedRemovesProgId |
