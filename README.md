# Backup: a verified model of the diff-and-sync engine

`Backup.py` keeps a backup directory in step with a source directory. The
model covers these parts:

- `get_all_files_and_dirs`: it enumerates a tree as two sets of relative path
  strings. The root is `"."`, a file in the root is `"./x"`, and other entries
  are `"a/b"`.
- `directory_diff`: it compares two trees by set algebra and file hashes. It
  returns five sorted lists: created, deleted and updated files, and created
  and deleted directories.
- `update_backup`: it applies these lists to the live backup directory **in
  place**. It runs five loops in this order:
  1. make the created directories;
  2. copy the created files, each after `os.makedirs` of its directory;
  3. overwrite the updated files;
  4. remove the deleted files;
  5. remove the deleted directories, in reverse sorted order, each only if it
     is empty.
- `create_replica`: it makes the destination if it is absent. It then walks
  the source, makes every directory, and copies each file only where nothing
  exists yet.
- `print_directory_tree`: it prints a tree, one indented line per entry.

A directory tree is a value `Tree(dirs, files)`. Its fields are:

- `dirs`: the set of component paths of the directories, with `[]` as the
  root;
- `files`: a map from each file's path to its bytes.

The source tree is only read. The backup directory is a class, `BackupDir`,
whose `dirs` and `files` fields the filesystem calls update:

- `os.makedirs`;
- `shutil.copy2`, which writes *into* a directory when the target is one;
- `os.remove`;
- the guarded `os.rmdir`.

Each loop of `update_backup` and `create_replica` is a method with a `while`
loop. These methods are proved against value-level functions, one per loop
(`SyncSteps`). The lemmas then prove what the code promises about those
functions.

### Departures from the code

- **No staging or atomic swap.** `update_backup` and `create_replica`
  change the live backup directory in place. There is no staging
  directory, atomic swap or roll-back, and the model claims no atomicity.
- **The hash is a parameter.** `file_hash` (SHA-256 over 8192-byte chunks) is
  a function `hash: Bytes -> Digest`. It is deterministic, and nothing else is
  assumed about it.
- **The walk order is free.** The order of `os.walk` and `os.listdir` is not
  fixed:
  - The enumeration and replica walks visit the directories in any order, and
    are proved for every order.
  - `print_directory_tree` takes the listing order as a parameter,
    `listdir: Path -> seq<Name>`.

## Model

| member | source | states |
|---|---|---|
| Paths.ParseRelDir | Backup.py:55-57 | joining the backup root with the string enumeration reports for a directory names that same directory |
| Paths.ParseRelFile | Backup.py:58-60 | joining a root with the string reported for a file (`os.path.join(rel_dir, file)`) names that same file |
| Paths.DirNameRelFile | Backup.py:132 | `os.path.dirname` of a reported file string is the reported string of the file's directory |
| Paths.ChildDirSortsAfter | Backup.py:150 | below the top level, a subdirectory's string sorts strictly after its parent's, so the reverse-sorted walk meets children first (a top-level name such as `-x` sorts before `.`) |
| PathOrder.SortedSet | Backup.py:83-89 | `sorted(set)` is strictly increasing in Python's string order, has one entry per element and holds exactly the set's elements |
| PathOrder.SortedUnique | Backup.py:83-89 | a strictly sorted list is determined by its elements, so the sorted lists do not depend on the iteration order of the sets |
| PathOrder.LessTotal | Backup.py:83-89 | Python's string order compares any two distinct strings |
| PathOrder.LessTransitive | Backup.py:83-89 | Python's string order is transitive |
| PathOrder.SortedDistinctList | Backup.py:86 | sorting a list without duplicates gives the strictly sorted list of its elements, a rearrangement of the list |
| Trees.AddFiles | Backup.py:58-60 | the inner loop adds exactly `os.path.join(rel_dir, file)` for every file name of the directory |
| Trees.AllFilesAndDirs | Backup.py:51-62 | walking every directory in any order yields exactly the tree's file strings and directory strings |
| Trees.RootIsDot | Backup.py:55-57 | the root directory is always reported, as "." |
| Trees.FileDirsEnumerated | Backup.py:55-60 | the directory part of every reported file is a reported directory |
| Trees.FileStringsAlgebra | Backup.py:69-71 | difference and intersection of reported file strings agree with those of the file paths themselves |
| DirDiff.CollectUpdated | Backup.py:73-79 | the hash loop keeps a common file exactly when its two hashes differ, and lists no file twice |
| DirDiff.DirectoryDiff | Backup.py:65-115 | the five lists returned are those of the change-set of the two trees |
| DirDiff.ChangesFromStrings | Backup.py:66-89 | the change-set computed on the reported strings is the one defined on the trees' own paths |
| DirDiff.FilesPartition | Backup.py:69-86 | a file string is created iff only in source, deleted iff only in backup, and updated only if in both; the file lists are strictly sorted |
| DirDiff.UpdatedIffHashesDiffer | Backup.py:73-79 | a file present in both trees is listed as updated iff the hashes of its two contents differ |
| DirDiff.DirsPartition | Backup.py:81-88 | created directories are exactly source minus backup, deleted ones exactly backup minus source; both strictly sorted |
| DirDiff.EmptyIffMirrors | Backup.py:65-89 | all five lists are empty iff the backup has the source's files and directories and every common file hashes the same |
| SyncSteps.MakeEachDir | Backup.py:123-126 | the "Create new directories" loop adds each listed directory and its ancestors and leaves the files alone |
| SyncSteps.CopyEachNew | Backup.py:129-134 | the "Copy new files" loop (dirname makedirs then copy2) does what the plain copies do when the directories exist |
| SyncSteps.CopyEach | Backup.py:137-141 | the "Update modified files" loop keeps the directories and writes exactly the copy targets |
| SyncSteps.CopyEachInPlace | Backup.py:137-141 | copies onto non-directory paths install the source contents at exactly those paths |
| SyncSteps.RemoveEach | Backup.py:144-147 | the "Delete removed files" loop removes exactly the listed files and nothing else |
| SyncSteps.RemoveEachEmptyDir | Backup.py:150-154 | the guarded rmdir loop keeps the files, removes only listed directories, and may skip some |
| SyncSteps.LastDirEmpty | Backup.py:149-153 | under the no-file, closed-under-children conditions, the last directory of the sorted list is empty when the reverse walk reaches it |
| SyncSteps.RemoveEachEmptyDirAll | Backup.py:149-154 | under those conditions the reverse-sorted walk removes every listed directory, descendants first |
| Update.CreateDirsStep | Backup.py:122-126 | after the first loop the backup has the union of both directory sets and its old files |
| Update.CopyNewStep | Backup.py:128-134 | after the second loop the files are the old ones plus the copy targets of the created files |
| Update.CopyUpdatedStep | Backup.py:136-141 | after the third loop the updated files hold the source contents |
| Update.FileStepsAsWritten | Backup.py:143-147 | after the fourth loop the deleted files are gone |
| Update.AsWrittenIsTree | Backup.py:119-155 | whenever `update_backup` runs without raising, it leaves a well-formed tree |
| Update.AsWrittenSyncs | Backup.py:119-155 | when no source file stands where the backup has a directory, `update_backup` leaves exactly the synchronised tree |
| Update.SyncedMirrors | Backup.py:118-155 | the synchronised tree has the source's files and directories and equal hashes for every file |
| Update.SyncedContents | Backup.py:129-141 | created and updated files hold the source content; a common file not listed as updated keeps the backup's content |
| Update.SyncedIsFixedPoint | Backup.py:119-155 | after a sync, `directory_diff` is empty and a second `update_backup` changes nothing |
| Update.FileOverDirBreaksMirror | Backup.py:129-154 | a source file at the path of a backup directory is not a file of the backup afterwards, the backup does not mirror the source, and `directory_diff` reports the file as created again |
| Update.FileOverDirLost | Backup.py:129-147 | when that backup directory already holds a non-source file of the same name, neither the file's own path nor that inner path is a file afterwards |
| Update.FileOverDirExample | Backup.py:129-154 | source file `a`, backup directory `a`: `update_backup` runs and the result does not mirror the source |
| Update.DirOverFileStopsUpdate | Backup.py:123-125 | a source directory at the path of a backup file is a created directory whose `os.makedirs` raises |
| Update.DeletionSteps | Backup.py:143-154 | the two deletion loops on the original backup leave exactly what the two trees share |
| Update.UpdateDeletionsFirst | Backup.py:119-155 | with the deletion loops run first, every pair of trees ends synchronised, with no type-clash exception |
| Replicas.ReplicaProperties | Backup.py:20-41 | the replica is a tree holding every source directory, every old entry with its old contents, and an entry at every source file's path |
| Replicas.ReplicaOfAbsent | Backup.py:21-22 | into an absent destination the replica is exactly the source, and `directory_diff` then reports nothing |
| Replicas.ReplicaIdempotent | Backup.py:20-41 | replicating a second time changes nothing |
| BackupDirs.BackupDir.MakeDirs | Backup.py:125 | `os.makedirs(p, exist_ok=True)` adds `p` and its ancestors as directories |
| BackupDirs.BackupDir.Copy | Backup.py:140 | `shutil.copy2` writes the content at the path, or inside it when the path is a directory |
| BackupDirs.BackupDir.Remove | Backup.py:146 | `os.remove` removes exactly that file |
| BackupDirs.BackupDir.RemoveDirIfEmpty | Backup.py:152-153 | the directory is removed exactly when it exists and is empty |
| BackupDirs.BackupDir.MakeEachDir | Backup.py:123-126 | the loop leaves the backup as the `MakeEachDir` fold of the listed strings |
| BackupDirs.BackupDir.CopyNewFiles | Backup.py:129-134 | the loop leaves the backup as the `CopyEachNew` fold |
| BackupDirs.BackupDir.CopyFiles | Backup.py:137-141 | the loop leaves the backup as the `CopyEach` fold |
| BackupDirs.BackupDir.RemoveFiles | Backup.py:144-147 | the loop leaves the backup as the `RemoveEach` fold |
| BackupDirs.BackupDir.RemoveEmptyDirs | Backup.py:150-154 | the reverse-sorted loop leaves the backup as the `RemoveEachEmptyDir` fold |
| BackupDirs.BackupDir.UpdateBackup | Backup.py:119-155 | the backup ends as the as-written result, stays a tree, and is synchronised when no source file stands on a backup directory |
| BackupDirs.BackupDir.UpdateBackupDeletionsFirst | Backup.py:119-155 | with the deletion loops first, the backup always ends synchronised with the source |
| BackupDirs.BackupDir.CopyMissingFiles | Backup.py:32-40 | the file loop of one directory copies exactly the files of that directory that do not exist yet |
| BackupDirs.BackupDir.ReplicateDir | Backup.py:26-40 | one walk step makes the directory and extends the copied files by that directory's missing files |
| BackupDirs.BackupDir.CreateReplica | Backup.py:20-41 | the destination ends as the replica of the source and is a tree |
| DirectoryTree.DirLinesDescribe | Backup.py:10-17 | with a faithful listing, line `i` of the walk from a directory is the `i`-th entry it reaches (its name, indented four spaces per level, "/" after a directory), and it reaches every entry below the directory exactly once, each directory's contents in one block right after its own line |
| DirectoryTree.DirLinesPrint | Backup.py:10-17 | line `i` printed from a directory is the rendering of the `i`-th entry in the walk's order |
| DirectoryTree.EntryLinesPrint | Backup.py:11-17 | the loop over the listed names prints, line by line, the entries it reaches: each name, then, after a directory, the walk into it |
| DirectoryTree.EntriesVisit | Backup.py:10-17 | with a faithful listing, the walk's order holds every entry below the directory exactly once, and depth first |
| DirectoryTree.ListedEntriesVisit | Backup.py:11-17 | the loop over the remaining listed names reaches, each once and depth first, exactly the entries below those names |
| DirectoryTree.TreeLineCount | Backup.py:10-17 | from the top of a tree, one line per file and per directory other than the top |

## Left out

- `GUI.py` (the Tkinter front end) is not part of this model.
- All `print` output is left out: the progress lines, the diff listing and the success messages. `print_directory_tree` returns its lines instead of printing them.
- `file_hash`: SHA-256, the hex digest and the chunked reads are abstracted into the `hash` parameter.
- `shutil.copy2` preserves timestamps and permission bits. Only file contents are modelled.
- Absolute path handling is left out: trees are addressed from their own root. So are symbolic links, permissions, I/O errors and concurrent changes to either tree during a run.
- The exceptions the code can raise are preconditions, stated as `UpdateRuns` for `update_backup` and `ReplicaRuns` for `create_replica`:
  - `os.makedirs` raises over an existing file, which `Update.DirOverFileStopsUpdate` exhibits.
  - `shutil.copy2` raises onto a directory inside a directory.
  - `create_replica` raises when the destination exists as a file.
- Atomicity, roll-back and crash behaviour are left out, because the code has none.
- `BackupDirs.BackupDir.UpdateBackup`: its mirror guarantee holds only when no source file stands where the backup has a directory. That is what the code does; see Findings.
- `SyncSteps.RemoveEachEmptyDir`: its own contract says only that listed directories may be removed. Which ones are removed is stated by `SyncSteps.RemoveEachEmptyDirAll`, under that lemma's conditions.
- Paths use `/` as their separator, and their strings sort with `/`. The commented-out roots at `Backup.py:6-7` are Windows paths, where `os.path.join` writes `\`, so the strings, and the order in which the deleted directories are removed, can differ. The model does not cover that.
- Names are compared exactly. On a case-insensitive filesystem, a source `A.txt` and a backup `a.txt` are one file. Then `copy2` overwrites the file and `os.remove` deletes it, so `Update.AsWrittenSyncs` does not hold there.
- The source and backup trees are taken to be separate. A backup inside the source would be walked as part of the source; that case is not modelled.
- The `os.walk` and `os.listdir` orders are not modelled. The walks are proved for every order, and the listing order is a parameter.

## Findings

| source | as written | input that shows it | evidently intended | confidence | as-written member | corrected member |
|---|---|---|---|---|---|---|
| Backup.py:129-154 | New files are copied before deleted directories are removed. `shutil.copy2` onto a backup directory therefore copies the file into it, so the file never lands on its own path. When the directory held no entry of that name, it is left non-empty and stays. When it held a file of that name (`a/a`), the copy overwrites it, "Delete removed files" removes it, the empty directory is removed, and the source file is nowhere in the backup (`Update.FileOverDirLost`). | source holds file `a`, backup holds directory `a` (or directory `a` with the file `a/a`) | the backup mirrors the source after `update_backup` | not executed | Update.FileOverDirExample | Update.UpdateDeletionsFirst |
| Backup.py:123-125 | New directories are made before deleted files are removed, so `os.makedirs` raises `FileExistsError` and the update stops half done. | source holds directory `a`, backup holds file `a` | the file is replaced by the directory | not executed | Update.DirOverFileStopsUpdate | Update.UpdateDeletionsFirst |

`Update.UpdateDeletionsFirst` and `BackupDirs.BackupDir.UpdateBackupDeletionsFirst` run the same five loops, with the two deletion loops first. They need only that both trees are trees. They always end with exactly `Update.Synced`, the source's files and directories, with the backup's content kept where the hashes agree.
