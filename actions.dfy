/** The script's top level: the totals reported over the listed files, the
    confirmation gate of the `delete-files` action, `delete_files`, and the
    run of one action over a folder snapshot and a file store. */
module Actions {
  import opened Seqs
  import opened Listing

  /** The two actions the command line offers; `List` is the default. */
  datatype Action = List | DeleteFiles

  /** What is reported after the listing: total size and number of files. */
  datatype Summary = Summary(totalSize: nat, totalFiles: nat)

  // ---------------------------------------------------------------------
  // Totals

  /** The sum of the sizes of the entries. */
  function TotalSize(files: seq<Entry>): (r: nat)
    ensures forall e :: e in files ==> e.size <= r
  {
    if files == [] then 0 else files[0].size + TotalSize(files[1..])
  }

  /** The total of a concatenation is the sum of the totals. */
  lemma {:induction false} TotalSizeConcat(s: seq<Entry>, t: seq<Entry>)
    ensures TotalSize(s + t) == TotalSize(s) + TotalSize(t)
  {
    if s == [] {
      assert s + t == t;
    } else {
      assert (s + t)[1..] == s[1..] + t;
      TotalSizeConcat(s[1..], t);
    }
  }

  /** Taking one entry out of a sequence takes its size off the total. */
  lemma TotalSizeWithout(t: seq<Entry>, i: nat)
    requires i < |t|
    ensures TotalSize(t) == t[i].size + TotalSize(t[..i] + t[i + 1..])
  {
    var front, back := t[..i], t[i + 1..];
    var last := [t[i]] + back;
    assert t == front + last;
    assert last[1..] == back;
    TotalSizeConcat(front, last);
    TotalSizeConcat(front, back);
  }

  /** Taking one entry out of a sequence takes one occurrence of it out of
      its multiset. */
  lemma MultisetWithout(t: seq<Entry>, i: nat)
    requires i < |t|
    ensures multiset(t[..i] + t[i + 1..]) == multiset(t) - multiset{t[i]}
  {
    assert t == t[..i] + [t[i]] + t[i + 1..];
    assert multiset(t) == multiset(t[..i]) + multiset{t[i]} + multiset(t[i + 1..]);
  }

  /** The total does not depend on the order of the entries. */
  lemma {:induction false} TotalSizeOfPermutation(s: seq<Entry>, t: seq<Entry>)
    requires multiset(s) == multiset(t)
    ensures TotalSize(s) == TotalSize(t)
  {
    if s == [] {
      assert |t| == |multiset(t)|;
    } else {
      var x := s[0];
      var i := IndexOf(t, x);
      var rest := t[..i] + t[i + 1..];
      PermutationWithout(s, t, i);
      TotalSizeOfPermutation(s[1..], rest);
      TotalSizeWithout(t, i);
    }
  }

  /** Taking the first entry out of one and the same entry out of a
      permutation of it leaves permutations. */
  lemma PermutationWithout(s: seq<Entry>, t: seq<Entry>, i: nat)
    requires multiset(s) == multiset(t)
    requires s != [] && i < |t| && t[i] == s[0]
    ensures multiset(s[1..]) == multiset(t[..i] + t[i + 1..])
  {
    MultisetTail(s);
    MultisetWithout(t, i);
  }

  /** Dropping the first entry takes one occurrence of it out of the
      multiset. */
  lemma MultisetTail(s: seq<Entry>)
    requires s != []
    ensures multiset(s[1..]) == multiset(s) - multiset{s[0]}
  {
    assert s == [s[0]] + s[1..];
  }

  /** A position of an entry that occurs in a sequence. */
  lemma IndexOf(t: seq<Entry>, x: Entry) returns (i: nat)
    requires x in multiset(t)
    ensures i < |t| && t[i] == x
  {
    i :| 0 <= i < |t| && t[i] == x;
  }

  /** Entries of at least `minSize` bytes each add up to at least `minSize`
      times their number. */
  lemma {:induction false} TotalSizeAtLeast(files: seq<Entry>, minSize: int)
    requires forall e :: e in files ==> e.size >= minSize
    ensures TotalSize(files) >= minSize * |files|
  {
    if files != [] {
      TotalSizeAtLeast(files[1..], minSize);
      assert minSize * |files| == minSize + minSize * |files[1..]|;
    }
  }

  /** The totals printed after the listing: whatever order the listed files
      are in, their total is the sum over the selected entries of the
      snapshot, their count is the number of those entries, and the total is
      at least `minSize` bytes per file. */
  lemma ReportedTotals(snapshot: seq<Entry>, minSize: int, extension: string, files: seq<Entry>)
    requires multiset(files) == multiset(Selected(snapshot, minSize, extension))
    ensures TotalSize(files) == TotalSize(Selected(snapshot, minSize, extension))
    ensures |files| == |Selected(snapshot, minSize, extension)|
    ensures TotalSize(files) >= minSize * |files|
  {
    var selected := Selected(snapshot, minSize, extension);
    TotalSizeOfPermutation(files, selected);
    assert |multiset(files)| == |multiset(selected)|;
    forall e | e in files ensures e.size >= minSize {
      assert e in multiset(selected);
    }
    TotalSizeAtLeast(files, minSize);
  }

  // ---------------------------------------------------------------------
  // The confirmation gate

  /** `str.lower` on one character, for the ASCII letters. */
  function LowerChar(c: char): (r: char)
    ensures !('A' <= r <= 'Z')
    ensures !('A' <= c <= 'Z') ==> r == c
    ensures 'A' <= c <= 'Z' ==> 'a' <= r <= 'z' && r as int - c as int == 'a' as int - 'A' as int
  {
    if 'A' <= c <= 'Z' then (c as int + 32) as char else c
  }

  /** `str.lower` on the ASCII letters: every upper-case letter lower-cased,
      in place. */
  function Lower(s: string): (r: string)
    ensures |r| == |s|
    ensures forall i :: 0 <= i < |r| ==> !('A' <= r[i] <= 'Z')
    ensures forall i :: 0 <= i < |s| && !('A' <= s[i] <= 'Z') ==> r[i] == s[i]
    ensures forall i :: 0 <= i < |s| && 'A' <= s[i] <= 'Z' ==> r[i] as int == s[i] as int + 32
  {
    seq(|s|, i requires 0 <= i < |s| => LowerChar(s[i]))
  }

  /** Lower-casing gives `yes` for exactly the eight spellings of `yes` in
      upper and lower case, and for nothing longer, shorter or padded. */
  lemma ConfirmedExactly(answer: string)
    ensures Lower(answer) == "yes" <==>
      |answer| == 3 && answer[0] in "yY" && answer[1] in "eE" && answer[2] in "sS"
  {
  }

  /** The answer lets the deletion go ahead: lower-cased, it is `yes`. */
  function Confirmed(answer: string): (r: bool)
    ensures r <==> |answer| == 3 && answer[0] in "yY" && answer[1] in "eE" && answer[2] in "sS"
  {
    ConfirmedExactly(answer);
    Lower(answer) == "yes"
  }

  // ---------------------------------------------------------------------
  // The file store and deletion

  /** The paths of the listed entries, in order. */
  function Names(files: seq<Entry>): (r: seq<string>)
    ensures forall p :: p in r <==> exists e :: e in files && e.name == p
    ensures |r| == |files|
    ensures forall i :: 0 <= i < |files| ==> r[i] == files[i].name
  {
    if files == [] then [] else [files[0].name] + Names(files[1..])
  }

  /** The paths of the listed entries, as a set. */
  ghost function NameSet(files: seq<Entry>): set<string>
  {
    set e | e in files :: e.name
  }

  /** The regular files of the file system, by path, with their sizes. */
  class FileStore {
    var files: map<string, nat>

    constructor (files: map<string, nat>)
      ensures this.files == files
    {
      this.files := files;
    }

    /** `delete_files`: removes each listed path in turn. Every listed path
        is gone afterwards; every other path is present exactly when it was
        before, with the same size. */
    method DeleteFiles(paths: seq<string>)
      modifies this
      ensures files == old(files) - (set p | p in paths)
      ensures forall p :: p in paths ==> p !in files
      ensures forall p :: p !in paths ==> (p in files <==> p in old(files))
      ensures forall p :: p !in paths && p in files ==> files[p] == old(files)[p]
    {
      for i := 0 to |paths|
        invariant files == old(files) - (set p | p in paths[..i])
      {
        assert paths[..i + 1] == paths[..i] + [paths[i]];
        files := files - {paths[i]};
      }
      assert paths[..|paths|] == paths;
    }
  }

  /** Every regular file the snapshot shows is in the store, with the size
      the snapshot gives. */
  ghost predicate Agrees(snapshot: seq<Entry>, store: map<string, nat>)
  {
    forall e :: e in snapshot && e.isFile ==> e.name in store && store[e.name] == e.size
  }

  /** The snapshot agrees with the store and shows every file of it. */
  ghost predicate Describes(snapshot: seq<Entry>, store: map<string, nat>)
  {
    && Agrees(snapshot, store)
    && (forall p :: p in store ==> exists e :: e in snapshot && e.isFile && e.name == p)
  }

  /** After the listed files are deleted, a new scan with the same criteria
      lists nothing: every regular file that is left was already there, was
      not listed, and so still fails the criteria. */
  lemma RescanAfterDeletionIsEmpty(before: seq<Entry>, store: map<string, nat>, after: seq<Entry>,
                                   minSize: int, extension: string)
    requires Describes(before, store)
    requires Agrees(after, store - NameSet(Selected(before, minSize, extension)))
    ensures Selected(after, minSize, extension) == []
  {
    var listed := Selected(before, minSize, extension);
    var named := Filter(after, NameMatches(PatternFor(extension)));
    forall e | e in named ensures !IsLargeFile(minSize)(e) {
      if e.isFile {
        NotListedFailsCriteria(before, store, e, minSize, extension);
      }
    }
    FilterNone(named, IsLargeFile(minSize));
  }

  /** A regular file of the store that a scan of a snapshot describing the
      store does not list fails the criteria of that scan. */
  lemma NotListedFailsCriteria(snapshot: seq<Entry>, store: map<string, nat>, e: Entry,
                               minSize: int, extension: string)
    requires Describes(snapshot, store)
    requires e.isFile && e.name in store && store[e.name] == e.size
    requires e.name !in NameSet(Selected(snapshot, minSize, extension))
    ensures !(e.size >= minSize && Matches(PatternFor(extension), e.name))
  {
  }

  // ---------------------------------------------------------------------
  // One run of the script

  /** The `__main__` block: list the files, compute the totals, and for
      `delete-files` delete the listed files when the answer to the prompt
      confirms it. The snapshot stands for what the folder's enumeration
      and the size queries see; the store is what deletion changes. */
  method Run(store: FileStore, snapshot: seq<Entry>, minSize: int, extension: string,
             action: Action, answer: string)
    returns (files: seq<Entry>, summary: Summary, deleted: bool)
    modifies store
    ensures multiset(files) == multiset(Selected(snapshot, minSize, extension))
    ensures SortedDesc(files)
    ensures forall k :: WithSize(files, k) == Selected(WithSize(snapshot, k), minSize, extension)
    ensures summary.totalSize == TotalSize(Selected(snapshot, minSize, extension))
    ensures summary.totalFiles == |Selected(snapshot, minSize, extension)|
    ensures deleted <==> action == DeleteFiles && Confirmed(answer)
    ensures deleted ==> store.files == old(store.files) - NameSet(files)
    ensures !deleted ==> store.files == old(store.files)
  {
    files := ListFilesBySizeDescending(snapshot, minSize, extension);
    summary := Summary(TotalSize(files), |files|);
    ReportedTotals(snapshot, minSize, extension, files);
    deleted := false;
    if action == DeleteFiles {
      if Confirmed(answer) {
        var paths := Names(files);
        store.DeleteFiles(paths);
        assert (set p | p in paths) == NameSet(files);
        deleted := true;
      }
    }
  }
}
