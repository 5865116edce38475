/** Collision-free names for the Recycle bin directory, notebook directories,
    note files and attachment files. The filesystem is abstracted as the set
    of names already present where the name is wanted. */
module Allocate {
  import opened Decimal
  import opened Sanitising

  // ---------------------------------------------------------------------------
  // Counter allocators: a first candidate, then `stem_1 + ext`, `stem_2 + ext`, ...

  /** The candidate the script builds on retry `n`: the stem, an underscore, the counter in decimal, then `ext`. */
  function Numbered(stem: string, n: nat, ext: string): string
  {
    stem + "_" + NatToString(n) + ext
  }

  /** Distinct retries give distinct candidates. */
  lemma NumberedInjective(stem: string, ext: string, j: nat, k: nat)
    requires Numbered(stem, j, ext) == Numbered(stem, k, ext)
    ensures j == k
  {
    var x := Numbered(stem, j, ext);
    var a, b := NatToString(j), NatToString(k);
    assert |a| == |b|;
    assert a == x[|stem| + 1..|stem| + 1 + |a|];
    assert b == x[|stem| + 1..|stem| + 1 + |b|];
    NatToStringInjective(j, k);
  }

  /** A retry candidate is longer than `stem + ext`, so it never equals it. */
  lemma NumberedDiffersFromStem(stem: string, n: nat, ext: string)
    ensures Numbered(stem, n, ext) != stem + ext
  {
  }

  /** `name` is what the counter loop settles on: `first` if that is free,
      otherwise `Numbered(stem, k, ext)` for the smallest `k >= 1` whose
      candidate is free. */
  ghost predicate FirstFree(first: string, stem: string, ext: string, taken: set<string>, name: string)
  {
    && name !in taken
    && (first !in taken ==> name == first)
    && (first in taken ==>
          exists k: nat :: 1 <= k && name == Numbered(stem, k, ext) &&
            forall j: nat :: 1 <= j < k ==> Numbered(stem, j, ext) in taken)
  }

  /** The description above pins the name down. */
  lemma FirstFreeUnique(first: string, stem: string, ext: string, taken: set<string>, a: string, b: string)
    requires FirstFree(first, stem, ext, taken, a) && FirstFree(first, stem, ext, taken, b)
    ensures a == b
  {
  }

  /** Allocating the same name twice, the second time with the first result
      taken as well, gives `first` and then the first retry. */
  lemma SameNameTwice(first: string, stem: string, ext: string, taken: set<string>, a: string, b: string)
    requires first !in taken && Numbered(stem, 1, ext) !in taken && Numbered(stem, 1, ext) != first
    requires FirstFree(first, stem, ext, taken, a)
    requires FirstFree(first, stem, ext, taken + {a}, b)
    ensures a == first && b == Numbered(stem, 1, ext)
  {
  }

  /** The retries before the `k`-th: `stem_1`, ..., `stem_(k-1)`, each followed by `ext`. */
  ghost function Retries(stem: string, ext: string, k: nat): set<string>
  {
    set j: nat | 1 <= j < k :: Numbered(stem, j, ext)
  }

  /** Allocating the same name over and over, each result taken before the
      next call: once `first` and the first `k - 1` retries are taken, the
      allocation gives the `k`-th retry. So `n` allocations give `first`,
      `stem_1`, ..., `stem_(n-1)`, in order. */
  lemma NthSameName(first: string, stem: string, ext: string, others: set<string>, k: nat)
    requires 1 <= k && first !in others
    requires forall j: nat :: 1 <= j ==> Numbered(stem, j, ext) !in others && Numbered(stem, j, ext) != first
    ensures FirstFree(first, stem, ext, others + {first} + Retries(stem, ext, k), Numbered(stem, k, ext))
  {
    var taken := others + {first} + Retries(stem, ext, k);
    if Numbered(stem, k, ext) in Retries(stem, ext, k) {
      var j: nat :| 1 <= j < k && Numbered(stem, j, ext) == Numbered(stem, k, ext);
      NumberedInjective(stem, ext, j, k);
    }
    forall j: nat | 1 <= j < k ensures Numbered(stem, j, ext) in taken {
      assert Numbered(stem, j, ext) in Retries(stem, ext, k);
    }
  }

  /** The script's counter loop: while the candidate is taken, try the retry with the
      next counter, starting from 1. */
  method AllocateNumbered(first: string, stem: string, ext: string, taken: set<string>) returns (name: string)
    requires forall k: nat :: 1 <= k ==> Numbered(stem, k, ext) != first
    ensures FirstFree(first, stem, ext, taken, name)
  {
    name := first;
    var n: nat := 1;
    ghost var rejected: set<string> := {};
    while name in taken
      invariant n >= 1
      invariant rejected <= taken && name !in rejected
      invariant forall m: nat :: n <= m ==> Numbered(stem, m, ext) !in rejected + {name}
      invariant n == 1 ==> name == first
      invariant n > 1 ==> first in taken && name == Numbered(stem, n - 1, ext)
      invariant forall j: nat :: 1 <= j < n - 1 ==> Numbered(stem, j, ext) in taken
      decreases |taken - rejected|
    {
      forall m: nat | n + 1 <= m
        ensures Numbered(stem, m, ext) != Numbered(stem, n, ext)
      {
        if Numbered(stem, m, ext) == Numbered(stem, n, ext) {
          NumberedInjective(stem, ext, m, n);
        }
      }
      assert taken - rejected == (taken - (rejected + {name})) + {name};
      rejected := rejected + {name};
      name := Numbered(stem, n, ext);
      n := n + 1;
    }
    if first in taken {
      assert 1 <= n - 1 && name == Numbered(stem, n - 1, ext);
    }
  }

  // ---------------------------------------------------------------------------
  // Directories in the working directory

  /** Joined onto a directory, these names denote that directory or its parent,
      so `is_dir()` holds for them and `is_file()` does not. */
  const DirAliases: set<string> := {"", ".", ".."}

  /** The names that count as existing directories of the working directory, given the
      directories present. */
  function Occupied(dirs: set<string>): set<string>
  {
    dirs + DirAliases
  }

  const RecycleBinName: string := "Recycle bin"

  /** Directory of the synthetic Recycle-bin notebook. */
  method AllocateRecycleBin(dirs: set<string>) returns (name: string)
    ensures FirstFree(RecycleBinName, RecycleBinName, "", Occupied(dirs), name)
    ensures RecycleBinName !in dirs ==> name == RecycleBinName
  {
    forall k: nat | 1 <= k ensures Numbered(RecycleBinName, k, "") != RecycleBinName {
      NumberedDiffersFromStem(RecycleBinName, k, "");
    }
    name := AllocateNumbered(RecycleBinName, RecycleBinName, "", Occupied(dirs));
  }

  /** The notebook's title, with an empty (or null) title replaced by `Untitled`. */
  function NotebookTitle(title: string): (t: string)
    ensures t != ""
    ensures title == "" ==> t == "Untitled"
    ensures title != "" ==> t == title
  {
    if title == "" then "Untitled" else title
  }

  /** The stem of a notebook directory name: the sanitised title. */
  function NotebookStem(title: string): string
  {
    Sanitise(NotebookTitle(title))
  }

  /** Directory of a notebook: the sanitised title, then `title_1`, `title_2`, ...
      (the retries are not truncated again). */
  method AllocateNotebookDir(title: string, dirs: set<string>) returns (name: string)
    ensures FirstFree(NotebookStem(title), NotebookStem(title), "", Occupied(dirs), name)
  {
    var stem := NotebookStem(title);
    forall k: nat | 1 <= k ensures Numbered(stem, k, "") != stem {
      NumberedDiffersFromStem(stem, k, "");
    }
    name := AllocateNumbered(stem, stem, "", Occupied(dirs));
  }

  // ---------------------------------------------------------------------------
  // Note files in a notebook directory

  const NoteExtension: string := ".htm"

  /** The first candidate for a note file: the sanitised title, or `Untitled` when
      that is empty, followed by `.htm`. */
  function NoteFileFirst(title: string): string
  {
    (if Sanitise(title) == "" then "Untitled" else Sanitise(title)) + NoteExtension
  }

  /** Note file: the first candidate, then `sanitise(title)_1.htm`, ...; the
      retries use the sanitised title with no `Untitled` fallback. Directory
      aliases are never files, so only the files present count as taken. */
  method AllocateNoteFile(title: string, files: set<string>) returns (name: string)
    ensures FirstFree(NoteFileFirst(title), Sanitise(title), NoteExtension, files, name)
  {
    var stem := Sanitise(title);
    forall k: nat | 1 <= k ensures Numbered(stem, k, NoteExtension) != NoteFileFirst(title) {
      if stem == "" {
        assert Numbered(stem, k, NoteExtension)[0] == '_';
        assert NoteFileFirst(title)[0] == 'U';
      } else {
        NumberedDiffersFromStem(stem, k, NoteExtension);
      }
    }
    name := AllocateNumbered(NoteFileFirst(title), stem, NoteExtension, files);
  }

  // ---------------------------------------------------------------------------
  // Attachment files in a media directory: cumulative renaming

  /** The index of the last `c` in `s`, or -1 when there is none. */
  function LastIndex(s: string, c: char): (i: int)
    ensures -1 <= i < |s|
    ensures 0 <= i ==> s[i] == c
    ensures forall j :: i < j < |s| ==> s[j] != c
    decreases |s|
  {
    if s == [] then -1
    else if s[|s| - 1] == c then |s| - 1
    else LastIndex(s[..|s| - 1], c)
  }

  /** Python's `s.rpartition('.')`: the text before the last dot, the dot, and
      the text after it; `('', '', s)` when there is no dot. */
  function RPartition(s: string): (string, string, string)
  {
    var i := LastIndex(s, '.');
    if i < 0 then ("", "", s) else (s[..i], ".", s[i + 1..])
  }

  /** One collision: the current name rebuilt from the text before the last dot,
      an underscore and the counter, the dot, and the text after it. */
  function Rename(name: string, n: nat): string
  {
    var parts := RPartition(name);
    parts.0 + "_" + NatToString(n) + parts.1 + parts.2
  }

  /** The name after `k` collisions; each one renames the previous result. */
  function Renamed(name: string, k: nat): string
    decreases k
  {
    if k == 0 then name else Rename(Renamed(name, k - 1), k)
  }

  /** Every rename makes the name longer. */
  lemma RenameGrows(name: string, n: nat)
    ensures |Rename(name, n)| > |name|
  {
  }

  /** With a dot, the counter goes in front of the last dot. */
  lemma RenameWithDot(stem: string, ext: string, n: nat)
    requires '.' !in ext
    ensures Rename(stem + "." + ext, n) == stem + "_" + NatToString(n) + "." + ext
  {
    var s := stem + "." + ext;
    var i := LastIndex(s, '.');
    assert s[|stem|] == '.';
    assert forall j :: |stem| < j < |s| ==> s[j] == ext[j - |stem| - 1];
    assert i == |stem|;
    assert s[..i] == stem && s[i + 1..] == ext;
  }

  /** Without a dot, the counter goes in front of the whole name. */
  lemma RenameNoDot(name: string, n: nat)
    requires '.' !in name
    ensures Rename(name, n) == "_" + NatToString(n) + name
  {
  }

  /** `stem_1_2..._k`: the text before the extension after `k` collisions. */
  function CountersBehind(stem: string, k: nat): string
    decreases k
  {
    if k == 0 then stem else CountersBehind(stem, k - 1) + "_" + NatToString(k)
  }

  /** `_k..._2_1name`: a name without a dot after `k` collisions. */
  function CountersInFront(name: string, k: nat): string
    decreases k
  {
    if k == 0 then name else "_" + NatToString(k) + CountersInFront(name, k - 1)
  }

  /** Renaming is cumulative: `a.txt`, `a_1.txt`, `a_1_2.txt`, ... */
  lemma {:induction false} RenamedWithDot(stem: string, ext: string, k: nat)
    requires '.' !in ext
    ensures Renamed(stem + "." + ext, k) == CountersBehind(stem, k) + "." + ext
    decreases k
  {
    if k > 0 {
      var prev := CountersBehind(stem, k - 1);
      calc {
        Renamed(stem + "." + ext, k);
        Rename(Renamed(stem + "." + ext, k - 1), k);
        { RenamedWithDot(stem, ext, k - 1); }
        Rename(prev + "." + ext, k);
        { RenameWithDot(prev, ext, k); }
        prev + "_" + NatToString(k) + "." + ext;
      }
    }
  }

  lemma {:induction false} CountersInFrontHaveNoDot(name: string, k: nat)
    requires '.' !in name
    ensures '.' !in CountersInFront(name, k)
    decreases k
  {
    if k > 0 {
      CountersInFrontHaveNoDot(name, k - 1);
      var d := NatToString(k);
      assert forall j :: 0 <= j < |d| ==> IsDigit(d[j]);
      assert '.' !in d;
    }
  }

  /** A name without a dot collects the counters at the front: `_1name`, `_2_1name`, ... */
  lemma {:induction false} RenamedNoDot(name: string, k: nat)
    requires '.' !in name
    ensures Renamed(name, k) == CountersInFront(name, k)
    decreases k
  {
    if k > 0 {
      RenamedNoDot(name, k - 1);
      CountersInFrontHaveNoDot(name, k - 1);
      RenameNoDot(CountersInFront(name, k - 1), k);
    }
  }

  // The examples take their literals as parameters fixed by `requires`, which
  // keeps the verifier from evaluating the functions on literal strings.

  /** `a.txt` colliding three times becomes `a_1_2_3.txt`. */
  lemma RenamedWithDotExample(stem: string, ext: string, k: nat)
    requires stem == "a" && ext == "txt" && k == 3
    ensures Renamed(stem + "." + ext, k) == "a_1_2_3.txt"
  {
    SmallNumbers();
    assert CountersBehind(stem, k) == "a_1_2_3";
    RenamedWithDot(stem, ext, k);
  }

  /** The counters the examples use, in decimal. */
  lemma SmallNumbers()
    ensures NatToString(1) == "1" && NatToString(2) == "2" && NatToString(3) == "3"
  {
  }

  /** `name` colliding twice becomes `_2_1name`. */
  lemma RenamedNoDotExample(name: string, k: nat)
    requires name == "name" && k == 2
    ensures Renamed(name, k) == "_2_1name"
  {
    SmallNumbers();
    assert CountersInFront(name, k) == "_2_1name";
    RenamedNoDot(name, k);
  }

  /** An upper bound on the lengths of the names in a finite set. */
  ghost function MaxLength(names: set<string>): (m: nat)
    ensures forall x :: x in names ==> |x| <= m
    decreases names
  {
    if names == {} then 0
    else
      var x :| x in names;
      var rest := MaxLength(names - {x});
      if |x| > rest then |x| else rest
  }

  /** The first of `Renamed(name, k)`, `Renamed(name, k + 1)`, ... that is not
      in `files`. */
  function FirstFreeRenaming(name: string, files: set<string>, k: nat): (r: string)
    ensures r !in files
    ensures exists j: nat :: k <= j && r == Renamed(name, j) &&
              forall i: nat :: k <= i < j ==> Renamed(name, i) in files
    decreases MaxLength(files) + 1 - |Renamed(name, k)|
  {
    var candidate := Renamed(name, k);
    if candidate !in files then candidate
    else
      RenameGrows(candidate, k + 1);
      FirstFreeRenaming(name, files, k + 1)
  }

  /** The attachment name the script settles on. */
  function AttachmentName(name: string, files: set<string>): string
  {
    FirstFreeRenaming(name, files, 0)
  }

  /** The script's attachment loop: while the name is a file in the media directory,
      rename it with the next counter, starting from 1. */
  method AllocateAttachmentName(name0: string, files: set<string>) returns (name: string)
    ensures name !in files
    ensures name == AttachmentName(name0, files)
  {
    name := name0;
    var n: nat := 1;
    while name in files
      invariant n >= 1 && name == Renamed(name0, n - 1)
      invariant FirstFreeRenaming(name0, files, n - 1) == AttachmentName(name0, files)
      decreases MaxLength(files) + 1 - |name|
    {
      RenameGrows(name, n);
      name := Rename(name, n);
      n := n + 1;
    }
  }
}
