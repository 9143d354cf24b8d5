# DiskUtils in Dafny

A model of `main.py` of DiskUtils, a command-line script that lists the files of
one folder that are at least a given size, largest first, with their total size
and count, and that can delete them after the user confirms.

The folder is an abstract snapshot: a sequence of entries
`Entry(name, size, isFile)` in the order the folder's enumeration yields them.
`name` stands for the path the script prints and deletes. The file system that
deletion changes is a `FileStore` object whose field `files` maps each path of a
regular file to its size.

Modules, one per part of the script:

- `Seqs` (`seqs.dfy`): `Filter`, an order-keeping filter shaped like a Python
  list comprehension, and lemmas about it.
- `Listing` (`listing.dfy`): `list_files_by_size_descending`. This covers the
  choice of pattern (`PatternFor`, `Matches`), the selection (`Selected`), the
  in-place stable sort (`SortBySizeDescending`, an insertion sort by neighbour
  exchanges on an `array`), and the whole function (`ListFilesBySizeDescending`).
  Stability is stated with `WithSize(s, k)`, the entries of size `k` in their
  order in `s`. A sort is stable when every such subsequence is the same before
  and after.
- `SizeFormat` (`size_format.dfy`): `format_size` as a loop (`FormatSize`). It
  is proved against `UnitOf`, a statement of the thresholds for each unit. The
  value shown with the unit is modelled as an exact real number.
- `Actions` (`actions.dfy`): the totals of the `__main__` block, the
  confirmation gate, `delete_files` (`FileStore.DeleteFiles`) and one run of
  the script (`Run`).

The script offers two actions, `list` (the default, main.py:32-33) and
`delete-files`. They are the two constructors of `Actions.Action`. In the script,
an `os.remove` that raises ends the deletion loop and the script. The model does
not capture that failure path; "Left out" below says so for
`Actions.FileStore.DeleteFiles`.

## Model

| member | source | states |
|---|---|---|
| `Seqs.Filter` | main.py:13 | the comprehension keeps exactly the elements that pass the test and never more elements than it was given |
| `Listing.Matches` | main.py:12 | a name matches `*` always, and matches `*<suffix>` exactly when it is some stem followed by the suffix |
| `Listing.PatternFor` | main.py:7-10 | the extension `*` gives the pattern that admits every name; any other extension gives a suffix pattern that is a dot followed by the extension |
| `Listing.PatternForMatches` | main.py:7-10 | the pattern built from extension `*` admits every name; for any other extension it admits a name exactly when the name is some stem, a dot and the extension |
| `Listing.ExtensionExamples` | main.py:7-10 | `txt` admits `a.txt` and rejects `a.txt.bak` and `atxt`; `*` admits any name |
| `Listing.Selected` | main.py:12-13 | an entry is selected exactly when it is in the snapshot, is a regular file, has size at least `minSize` (so exactly `minSize` is in and `minSize - 1` is out) and matches the pattern |
| `Listing.SortBySizeDescending` | main.py:14 | after the in-place sort the array is largest first, the entries of each size are in their original order, and the array is a permutation of what it was |
| `Listing.SwapKeepsSizeClasses` | main.py:14 | exchanging two neighbours of different sizes keeps the order among the entries of every size (why the sort is stable) |
| `Listing.SameSizeClassesArePermutations` | main.py:14 | keeping every size's subsequence implies being a permutation |
| `Listing.StableSortIsUnique` | main.py:14 | two largest-first lists that agree on the order within every size are equal, so the result is the unique stable descending sort |
| `Listing.SelectionKeepsSizeClasses` | main.py:12-13 | selecting, then taking one size, is the same as taking that size, then selecting: the filter keeps enumeration order within each size |
| `Listing.ListFilesBySizeDescending` | main.py:6-15 | the returned list holds exactly the selected entries, as a permutation of them; it is non-increasing by size; the entries of each size come in snapshot enumeration order |
| `SizeFormat.FormatSize` | main.py:18-23 | the unit is B below 1024, KB below 1024^2, MB below 1024^3, GB below 1024^4 and TB from there on; the value is size / 1024^rank of the unit; it is below 1024 unless the unit is TB, and at least 1 unless the unit is B |
| `SizeFormat.UnitAtPosition` | main.py:19-21 | when the loop stops at position k, the unit it returns is the unit the thresholds give for that size |
| `Actions.TotalSize` | main.py:47 | the sum of the entry sizes is at least the size of each entry; `TotalSizeOfPermutation` shows it does not depend on the order |
| `Actions.TotalSizeOfPermutation` | main.py:47 | the summed size does not depend on the order of the files |
| `Actions.TotalSizeAtLeast` | main.py:47 | files of at least `minSize` bytes each sum to at least `minSize` times their number |
| `Actions.ReportedTotals` | main.py:47-48 | the reported total is the size sum of the selected snapshot entries and the count is their number, whatever the order of the listed files; the total is at least `minSize` per file |
| `Actions.LowerChar` | main.py:67 | `str.lower` on the ASCII letters, for one character: the result is never an upper-case ASCII letter, an upper-case letter becomes its lower-case letter, and any other character is unchanged |
| `Actions.Lower` | main.py:67 | `str.lower` on the ASCII letters: the lower-cased answer has the same length, each upper-case ASCII letter becomes its lower-case letter (code point plus 32), no upper-case ASCII letter is left, and every other character is kept |
| `Actions.Confirmed` | main.py:67 | the gate `confirm.lower() == 'yes'` opens exactly for a three-character answer spelled `y`/`Y`, `e`/`E`, `s`/`S` |
| `Actions.ConfirmedExactly` | main.py:66-67 | lower-casing the answer gives `yes` exactly for the three-character answers `y`/`Y`, `e`/`E`, `s`/`S`; any other answer, including one with extra spaces, does not |
| `Actions.Names` | main.py:38 | the paths `delete_files` loops over: one per listed file, in listing order, each the path of the file at that position |
| `Actions.FileStore.DeleteFiles` | main.py:37-39 | the new store is the old one without the listed paths; every listed path is absent, every other path keeps its presence and its size |
| `Actions.RescanAfterDeletionIsEmpty` | main.py:37-39 | after the listed files are removed from a store the snapshot described, a scan with the same criteria of any snapshot that agrees with the new store lists nothing |
| `Actions.Run` | main.py:43-70 | the listing and totals are those above; deletion happens exactly when the action is `DeleteFiles` and the lower-cased answer is `yes`, and then removes exactly the listed paths; otherwise the store is unchanged |

## Left out

- Argument parsing and its defaults (main.py:26-34): the `~/Downloads` folder from the home directory and the 10 MiB minimum. The folder snapshot, the minimum, the extension, the action and the typed answer are parameters of the model.
- The real file system calls (`glob.glob`, `os.path.isfile`, `os.path.getsize`, `os.remove`). The snapshot and the store stand for them. Joining the folder with a name into a path is not modelled: an entry's name is its path.
- Listing.Matches: `glob.glob` never returns names that start with a dot (main.py:12), since neither `*` nor `*.<extension>` starts with one. `Listing.Matches` admits them, so the model lists, totals and deletes such a file. Platform-specific glob behaviour, case folding on some systems, is not modelled either, nor are glob metacharacters inside the extension. Matching is a plain suffix test.
- The file system changing between the repeated `getsize` calls (main.py:13, 14, 47, 54, 62): the snapshot gives one size per entry.
- Actions.FileStore.DeleteFiles: a path not in the store is skipped, whereas `os.remove` raises an exception there, which ends the loop and the script. Failures part-way through a deletion are not modelled.
- SizeFormat.FormatSize: the value is the exact real quotient. Python divides in floating point, which rounds once the size passes 2^53 bytes. The unit choice is still exact, because every comparison near a unit boundary involves a size below 2^41. Python also raises `OverflowError` once the quotient `size / 1024` no longer fits in a float, that is for sizes from about 2^1034 on. Such a `--min-size` is formatted at main.py:52 and main.py:60, so the script stops there before it lists or deletes anything. The model returns a value and a unit for every size, and `Run` does not model that failure path. The text `f"{size:.2f} {unit}"`, with its two decimals and rounding, is not modelled.
- All printed text (main.py:40, 51-56, 59-64, 69-70) and the prompt (main.py:66). The answer to the prompt is a string parameter.
- Actions.LowerChar, Actions.Lower, Actions.Confirmed: `str.lower` is modelled for ASCII letters only, and other characters are left as they are. This does not change the gate, since no other character lower-cases to `y`, `e` or `s`.
