/** The scan of `list_files_by_size_descending`: the folder is an abstract
    snapshot, the sequence of its entries in the order enumeration yields
    them. A name pattern is chosen from the extension, entries are kept when
    they match it, are regular files and are at least `minSize` bytes, and the
    survivors are sorted by size, largest first, by a stable sort. */
module Listing {
  import opened Seqs

  /** One entry of the scanned folder: its path, its size in bytes and
      whether it is a regular file (and not a directory or special file). */
  datatype Entry = Entry(name: string, size: nat, isFile: bool)

  /** The two shapes of name pattern the scan builds: `*`, or `*` followed
      by a literal suffix. */
  datatype Pattern = AnyName | EndsWith(suffix: string)

  /** Whether a name matches a pattern: `*` admits every name, `*<suffix>`
      admits exactly the names that end with the suffix. */
  function Matches(p: Pattern, name: string): (r: bool)
    ensures r <==> p.AnyName? || exists stem :: name == stem + p.suffix
  {
    match p
    case AnyName => true
    case EndsWith(suffix) =>
      EndsWithIff(suffix, name);
      |suffix| <= |name| && name[|name| - |suffix|..] == suffix
  }

  /** A name ends with a suffix exactly when it is some stem followed by
      the suffix. */
  lemma EndsWithIff(suffix: string, name: string)
    ensures (|suffix| <= |name| && name[|name| - |suffix|..] == suffix) <==>
            exists stem :: name == stem + suffix
  {
    if |suffix| <= |name| && name[|name| - |suffix|..] == suffix {
      assert name == name[..|name| - |suffix|] + suffix;
    }
    if exists stem :: name == stem + suffix {
      var stem :| name == stem + suffix;
      assert name[|name| - |suffix|..] == suffix;
    }
  }

  /** The pattern built from the extension argument: `*` for the extension
      `*`, and `*.<extension>` for every other one. */
  function PatternFor(extension: string): (r: Pattern)
    ensures r.AnyName? <==> extension == "*"
    ensures r.EndsWith? ==> |r.suffix| == |extension| + 1 && r.suffix[0] == '.' && r.suffix[1..] == extension
  {
    if extension == "*" then AnyName else EndsWith("." + extension)
  }

  /** A name whose final part is a dot followed by the extension. */
  ghost predicate HasExtension(name: string, extension: string)
  {
    exists stem :: name == stem + "." + extension
  }

  /** The pattern of an extension admits a name exactly when the extension is
      `*` or the name is some stem, a dot and the extension. */
  lemma {:induction false} PatternForMatches(extension: string, name: string)
    ensures Matches(PatternFor(extension), name) <==> extension == "*" || HasExtension(name, extension)
  {
    if extension != "*" {
      var suffix := "." + extension;
      if Matches(PatternFor(extension), name) {
        var stem := name[..|name| - |suffix|];
        assert name == stem + suffix;
        assert stem + "." + extension == stem + suffix;
      }
      if HasExtension(name, extension) {
        var stem :| name == stem + "." + extension;
        assert name == stem + suffix;
        assert name[|name| - |suffix|..] == suffix;
      }
    }
  }

  /** The extension `txt` admits `a.txt` but neither `a.txt.bak` nor `atxt`;
      the extension `*` admits any name. */
  lemma ExtensionExamples(name: string)
    ensures Matches(PatternFor("txt"), "a.txt")
    ensures !Matches(PatternFor("txt"), "a.txt.bak")
    ensures !Matches(PatternFor("txt"), "atxt")
    ensures Matches(PatternFor("*"), name)
  {
  }

  /** Filters used by the scan, as predicates on entries. */
  function NameMatches(p: Pattern): Entry -> bool
  {
    (e: Entry) => Matches(p, e.name)
  }

  function IsLargeFile(minSize: int): Entry -> bool
  {
    (e: Entry) => e.isFile && e.size >= minSize
  }

  function HasSize(k: int): Entry -> bool
  {
    (e: Entry) => e.size == k
  }

  /** The entries of size `k`, in their order in `s`. */
  function WithSize(s: seq<Entry>, k: int): seq<Entry>
  {
    Filter(s, HasSize(k))
  }

  /** The list before sorting: the entries the pattern admits, in
      enumeration order, of which the list comprehension keeps the regular
      files of at least `minSize` bytes. */
  function Selected(snapshot: seq<Entry>, minSize: int, extension: string): (r: seq<Entry>)
    ensures forall e :: e in r <==>
      e in snapshot && e.isFile && e.size >= minSize && Matches(PatternFor(extension), e.name)
  {
    Filter(Filter(snapshot, NameMatches(PatternFor(extension))), IsLargeFile(minSize))
  }

  /** Largest first: no entry is smaller than one after it. */
  predicate SortedDesc(s: seq<Entry>)
  {
    forall p, q :: 0 <= p < q < |s| ==> s[p].size >= s[q].size
  }

  /** The entries of every single size appear in the same order in both
      sequences. */
  ghost predicate SameSizeClasses(s: seq<Entry>, t: seq<Entry>)
  {
    forall k :: WithSize(s, k) == WithSize(t, k)
  }

  /** Exchanging two neighbours of different sizes leaves the order among
      the entries of every single size as it was. */
  lemma SwapKeepsSizeClasses(s: seq<Entry>, i: nat)
    requires i + 1 < |s|
    requires s[i].size != s[i + 1].size
    ensures SameSizeClasses(s[i := s[i + 1]][i + 1 := s[i]], s)
  {
    var t := s[i := s[i + 1]][i + 1 := s[i]];
    var pre, post := s[..i], s[i + 2..];
    assert s == pre + [s[i], s[i + 1]] + post;
    assert t == pre + [s[i + 1], s[i]] + post;
    forall k ensures WithSize(t, k) == WithSize(s, k) {
      var p := HasSize(k);
      FilterConcat(pre + [s[i], s[i + 1]], post, p);
      FilterConcat(pre, [s[i], s[i + 1]], p);
      FilterConcat(pre + [s[i + 1], s[i]], post, p);
      FilterConcat(pre, [s[i + 1], s[i]], p);
      assert [s[i], s[i + 1]][1..] == [s[i + 1]];
      assert [s[i + 1], s[i]][1..] == [s[i]];
    }
  }

  /** Sequences whose entries of every size agree, in order, are
      permutations of each other. */
  lemma SameSizeClassesArePermutations(s: seq<Entry>, t: seq<Entry>)
    requires SameSizeClasses(s, t)
    ensures multiset(s) == multiset(t)
  {
    forall x ensures multiset(s)[x] == multiset(t)[x] {
      FilterCount(s, HasSize(x.size), x);
      FilterCount(t, HasSize(x.size), x);
      assert WithSize(s, x.size) == WithSize(t, x.size);
    }
  }

  /** Unfolds one step of `WithSize`. */
  lemma WithSizeCons(s: seq<Entry>, k: int)
    requires s != []
    ensures WithSize(s, k) == if s[0].size == k then [s[0]] + WithSize(s[1..], k) else WithSize(s[1..], k)
  {
  }

  /** In a largest-first sequence no entry is larger than the first. */
  lemma FirstIsLargest(s: seq<Entry>, x: Entry)
    requires SortedDesc(s) && x in s
    ensures x.size <= s[0].size
  {
  }

  /** Two largest-first sequences that agree on every size class start with
      the same entry. */
  lemma HeadsAgree(s: seq<Entry>, t: seq<Entry>)
    requires SortedDesc(s) && SortedDesc(t)
    requires SameSizeClasses(s, t)
    requires s != [] && t != []
    ensures s[0] == t[0]
  {
    var a, b := s[0], t[0];
    WithSizeCons(s, a.size);
    WithSizeCons(t, b.size);
    assert a in WithSize(t, a.size);
    FirstIsLargest(t, a);
    assert b in WithSize(s, b.size);
    FirstIsLargest(s, b);
    assert WithSize(s, a.size) == WithSize(t, a.size);
  }

  /** Removing a common first entry keeps every size class in agreement. */
  lemma TailsAgree(s: seq<Entry>, t: seq<Entry>)
    requires SameSizeClasses(s, t)
    requires s != [] && t != [] && s[0] == t[0]
    ensures SameSizeClasses(s[1..], t[1..])
  {
    forall k ensures WithSize(s[1..], k) == WithSize(t[1..], k) {
      WithSizeCons(s, k);
      WithSizeCons(t, k);
      assert WithSize(s, k) == WithSize(t, k);
      if s[0].size == k {
        assert WithSize(s[1..], k) == WithSize(s, k)[1..];
        assert WithSize(t[1..], k) == WithSize(t, k)[1..];
      }
    }
  }

  /** Sorting is exactly determined by these two properties: two sequences
      that are both largest-first and agree on the order among the entries
      of every size are equal. So any stable descending sort of the same
      input gives the same list. */
  lemma {:induction false} StableSortIsUnique(s: seq<Entry>, t: seq<Entry>)
    requires SortedDesc(s) && SortedDesc(t)
    requires SameSizeClasses(s, t)
    ensures s == t
  {
    if s == [] {
      if t != [] {
        WithSizeCons(t, t[0].size);
      }
    } else if t == [] {
      WithSizeCons(s, s[0].size);
    } else {
      HeadsAgree(s, t);
      TailsAgree(s, t);
      StableSortIsUnique(s[1..], t[1..]);
      assert s == [s[0]] + s[1..];
      assert t == [t[0]] + t[1..];
    }
  }

  lemma SameSizeClassesTransitive(r: seq<Entry>, s: seq<Entry>, t: seq<Entry>)
    requires SameSizeClasses(r, s) && SameSizeClasses(s, t)
    ensures SameSizeClasses(r, t)
  {
  }

  /** The state of one insertion pass after the entry being inserted has
      reached position `j` of the first `i + 1` entries: the entries before
      `j` and those from `j` to `i` are each largest-first, and none before
      `j` is smaller than one after `j`. */
  ghost predicate Inserting(s: seq<Entry>, j: nat, i: nat)
  {
    && j <= i < |s|
    && (forall p, q :: 0 <= p < q < j ==> s[p].size >= s[q].size)
    && (forall p, q :: j <= p < q <= i ==> s[p].size >= s[q].size)
    && (forall p, q :: 0 <= p < j < q <= i ==> s[p].size >= s[q].size)
  }

  /** A pass starts with a largest-first prefix of `i` entries. */
  lemma InsertingStart(s: seq<Entry>, i: nat)
    requires i < |s| && SortedDesc(s[..i])
    ensures Inserting(s, i, i)
  {
  }

  /** Exchanging the entry being inserted with a strictly smaller left
      neighbour keeps the pass's state, one position further left. */
  lemma InsertingStep(s: seq<Entry>, j: nat, i: nat)
    requires Inserting(s, j, i) && 0 < j && s[j - 1].size < s[j].size
    ensures Inserting(s[j - 1 := s[j]][j := s[j - 1]], j - 1, i)
  {
  }

  /** A pass ends when the entry being inserted is first or its left
      neighbour is at least as large: then the first `i + 1` entries are
      largest-first. */
  lemma InsertingDone(s: seq<Entry>, j: nat, i: nat)
    requires Inserting(s, j, i) && (j == 0 || s[j - 1].size >= s[j].size)
    ensures SortedDesc(s[..i + 1])
  {
  }

  /** One exchange of the insertion pass, on the array's contents. */
  lemma InsertingSwap(s: seq<Entry>, j: nat, i: nat)
    requires Inserting(s, j, i) && 0 < j && s[j - 1].size < s[j].size
    ensures Inserting(s[j - 1 := s[j]][j := s[j - 1]], j - 1, i)
    ensures SameSizeClasses(s[j - 1 := s[j]][j := s[j - 1]], s)
  {
    SwapKeepsSizeClasses(s, j - 1);
    InsertingStep(s, j, i);
  }

  /** One pass of the insertion sort: the entry at `i` moves left past
      the strictly smaller entries before it, so that the first `i + 1`
      entries are largest-first. */
  method InsertLeft(a: array<Entry>, i: nat)
    requires i < a.Length && SortedDesc(a[..i])
    modifies a
    ensures SortedDesc(a[..i + 1])
    ensures SameSizeClasses(a[..], old(a[..]))
  {
    var j: nat := i;
    InsertingStart(a[..], i);
    while j > 0 && a[j - 1].size < a[j].size
      invariant Inserting(a[..], j, i)
      invariant SameSizeClasses(a[..], old(a[..]))
    {
      ghost var before := a[..];
      ghost var after := before[j - 1 := before[j]][j := before[j - 1]];
      InsertingSwap(before, j, i);
      SameSizeClassesTransitive(after, before, old(a[..]));
      a[j - 1], a[j] := a[j], a[j - 1];
      assert a[..] == after;
      j := j - 1;
    }
    InsertingDone(a[..], j, i);
  }

  /** The in-place `files.sort(key=os.path.getsize, reverse=True)`: an
      insertion sort by neighbour exchanges. An entry moves left only past
      strictly smaller ones, which is what makes the sort stable. */
  method SortBySizeDescending(a: array<Entry>)
    modifies a
    ensures SortedDesc(a[..])
    ensures SameSizeClasses(a[..], old(a[..]))
    ensures multiset(a[..]) == multiset(old(a[..]))
  {
    var i := 0;
    while i < a.Length
      invariant 0 <= i <= a.Length
      invariant SortedDesc(a[..i])
      invariant SameSizeClasses(a[..], old(a[..]))
    {
      ghost var before := a[..];
      InsertLeft(a, i);
      SameSizeClassesTransitive(a[..], before, old(a[..]));
      i := i + 1;
    }
    assert a[..] == a[..a.Length];
    SameSizeClassesArePermutations(a[..], old(a[..]));
  }

  /** Selecting and then taking the entries of one size gives the same list
      as taking the entries of that size and then selecting. */
  lemma SelectionKeepsSizeClasses(snapshot: seq<Entry>, minSize: int, extension: string, k: int)
    ensures WithSize(Selected(snapshot, minSize, extension), k)
         == Selected(WithSize(snapshot, k), minSize, extension)
  {
    var nm, large, size := NameMatches(PatternFor(extension)), IsLargeFile(minSize), HasSize(k);
    FilterCommutes(Filter(snapshot, nm), large, size);
    FilterCommutes(snapshot, nm, size);
  }

  /** `list_files_by_size_descending`: the selected entries of the
      snapshot, largest first; among entries of equal size the enumeration
      order is kept. */
  method ListFilesBySizeDescending(snapshot: seq<Entry>, minSize: int, extension: string)
    returns (files: seq<Entry>)
    ensures forall e :: e in files <==>
      e in snapshot && e.isFile && e.size >= minSize && Matches(PatternFor(extension), e.name)
    ensures multiset(files) == multiset(Selected(snapshot, minSize, extension))
    ensures SortedDesc(files)
    ensures forall k :: WithSize(files, k) == Selected(WithSize(snapshot, k), minSize, extension)
  {
    var selected := Selected(snapshot, minSize, extension);
    var a := new Entry[|selected|](i requires 0 <= i < |selected| => selected[i]);
    assert a[..] == selected;
    SortBySizeDescending(a);
    files := a[..];
    forall k ensures WithSize(files, k) == Selected(WithSize(snapshot, k), minSize, extension) {
      SelectionKeepsSizeClasses(snapshot, minSize, extension, k);
    }
    assert forall e :: e in files <==> e in multiset(files);
  }
}
