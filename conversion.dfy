/** Converting one archive: the Recycle-bin notebook, one directory per
    notebook, one file per note whose parent resolves, and the bookkeeping of
    converted and not-converted notes for the closing summary. */
module Conversion {
  import opened Text
  import opened Decimal
  import opened Sanitising
  import opened Allocate
  import opened Attachments

  datatype Option<T> = None | Some(value: T)

  /** The title a note without one is listed under. */
  const DefaultTitle: string := "Untitled"

  /** The notebook ID the archive uses for notes without a real notebook. */
  const RecycleBinId: string := "1027_#00000000"

  /** A registered notebook: its directory and its media directory. */
  datatype Notebook = Notebook(path: string, mediaPath: string)

  /** A decoded note entry; `None` stands for a missing key. */
  datatype NoteEntry = NoteEntry(
    title: Option<string>,
    content: Option<string>,
    parentId: Option<string>,
    attachments: seq<Attachment>)

  /** What converting one note produced: nothing, or a file in a notebook directory. */
  datatype Outcome = Skipped | Written(dir: string, fileName: string, content: string)

  /** The note's title, `Untitled` when the record has none. */
  function NoteTitle(e: NoteEntry): string
  {
    match e.title
    case Some(t) => t
    case None => DefaultTitle
  }

  /** The note's body, empty when the record has none. */
  function NoteContent(e: NoteEntry): string
  {
    match e.content
    case Some(c) => c
    case None => ""
  }

  /** The parent notebook lookup; a missing `parent_id` and an unknown one both fail. */
  function Parent(e: NoteEntry, index: map<string, Notebook>): (r: Option<Notebook>)
    ensures r.Some? <==> e.parentId.Some? && e.parentId.value in index
    ensures r.Some? ==> r.value == index[e.parentId.value]
  {
    match e.parentId
    case None => None
    case Some(id) => if id in index then Some(index[id]) else None
  }

  /** A notebook's media directory inside its directory. */
  function MediaPathOf(path: string): string
  {
    path + "/" + MediaDirName
  }

  function Elements(s: seq<string>): set<string>
  {
    set x | x in s
  }

  /** The IDs of the notes seen but never converted. */
  function NotConverted(seen: set<string>, converted: seq<string>): set<string>
  {
    seen - Elements(converted)
  }

  /** When every converted ID was seen, the seen notes split into the
      converted ones and the not-converted ones. */
  lemma NotConvertedPartition(seen: set<string>, converted: seq<string>)
    requires Elements(converted) <= seen
    ensures NotConverted(seen, converted) * Elements(converted) == {}
    ensures NotConverted(seen, converted) + Elements(converted) == seen
    ensures |NotConverted(seen, converted)| + |Elements(converted)| == |seen|
  {
  }

  predicate NoDuplicates(s: seq<string>)
  {
    forall i, j :: 0 <= i < j < |s| ==> s[i] != s[j]
  }

  lemma {:induction false} DistinctElements(s: seq<string>)
    requires NoDuplicates(s)
    ensures |Elements(s)| == |s|
    decreases |s|
  {
    if s != [] {
      var init := s[..|s| - 1];
      DistinctElements(init);
      assert Elements(s) == Elements(init) + {s[|s| - 1]};
      assert s[|s| - 1] !in Elements(init);
    }
  }

  lemma MultisetCardinality(a: multiset<string>, b: multiset<string>)
    requires a <= b
    ensures |a| <= |b|
  {
    assert b == a + (b - a);
  }

  /** When no note ID is listed twice, no more notes are converted than seen. */
  lemma ConvertedAtMostSeen(processed: seq<string>, converted: seq<string>)
    requires NoDuplicates(processed)
    requires multiset(converted) <= multiset(processed)
    ensures |converted| <= |Elements(processed)|
  {
    MultisetCardinality(multiset(converted), multiset(processed));
    DistinctElements(processed);
  }

  /** Every registered notebook's directory exists, with note and media
      listings, and its media directory lies inside it. */
  ghost predicate IndexValid(index: map<string, Notebook>, dirs: set<string>,
                             noteFiles: map<string, set<string>>, mediaFiles: map<string, set<string>>)
  {
    forall id :: id in index ==>
      && index[id].path in dirs
      && index[id].path in noteFiles
      && index[id].path in mediaFiles
      && index[id].mediaPath == MediaPathOf(index[id].path)
  }

  /** Registering a new directory keeps the index valid. */
  lemma EntriesStayValid(index: map<string, Notebook>, dirs: set<string>,
                         noteFiles: map<string, set<string>>, mediaFiles: map<string, set<string>>,
                         id: string, path: string)
    requires IndexValid(index, dirs, noteFiles, mediaFiles)
    ensures IndexValid(index[id := Notebook(path, MediaPathOf(path))], dirs + {path},
                       noteFiles[path := {}], mediaFiles[path := {}])
  {
  }

  /** Changing the listings of a registered directory keeps the index valid. */
  lemma ListingsStayValid(index: map<string, Notebook>, dirs: set<string>,
                          noteFiles: map<string, set<string>>, mediaFiles: map<string, set<string>>,
                          path: string, notes: set<string>, media: set<string>)
    requires IndexValid(index, dirs, noteFiles, mediaFiles)
    ensures IndexValid(index, dirs, noteFiles[path := notes], mediaFiles[path := media])
  {
  }

  /** The title index holds exactly the processed notes, and every converted
      note was processed (as often as it was converted, at least). */
  ghost predicate Bookkept(noteTitles: map<string, string>, converted: seq<string>, processed: seq<string>)
  {
    && noteTitles.Keys == Elements(processed)
    && multiset(converted) <= multiset(processed)
  }

  /** Processing one more note keeps the bookkeeping, whether or not the note is converted. */
  lemma NoteBookkept(noteTitles: map<string, string>, converted: seq<string>, processed: seq<string>,
                     id: string, title: string)
    requires Bookkept(noteTitles, converted, processed)
    ensures Bookkept(noteTitles[id := title], converted, processed + [id])
    ensures Bookkept(noteTitles[id := title], converted + [id], processed + [id])
  {
  }

  /** What writing a note whose notebook resolved does, given the note files
      and media files of its notebook directory: the attachment loop runs over
      the rewritten body, the `Attachments:` line goes in front, and the file
      name is the first free one for the note's title. */
  ghost predicate NoteWritten(entry: NoteEntry, archive: Archive, rewriteImages: string -> string,
                              notes: set<string>, media0: set<string>,
                              fileName: string, content: string, media: set<string>)
  {
    && (content, media) == AssembleNote(rewriteImages(NoteContent(entry)), entry.attachments, archive, media0)
    && FirstFree(NoteFileFirst(NoteTitle(entry)), Sanitise(NoteTitle(entry)), NoteExtension, notes, fileName)
  }

  /** The body of the note loop once the parent notebook is known: rewrite the
      images, process the attachments, add the attachment line, pick the file name. */
  method WriteNote(entry: NoteEntry, archive: Archive, rewriteImages: string -> string,
                   notes: set<string>, media0: set<string>)
    returns (fileName: string, content: string, media: set<string>)
    ensures NoteWritten(entry, archive, rewriteImages, notes, media0, fileName, content, media)
    ensures fileName !in notes && media0 <= media
  {
    var links;
    content, media, links := ProcessAttachments(entry.attachments, archive, media0, rewriteImages(NoteContent(entry)));
    FoldMediaGrows(Progress(rewriteImages(NoteContent(entry)), media0, []), entry.attachments, archive);
    content := WithAttachmentLine(links, content);
    fileName := AllocateNoteFile(NoteTitle(entry), notes);
  }

  /** A note written from `entry` holds the link of every one of its attachments. */
  lemma WrittenNoteLinks(entry: NoteEntry, archive: Archive, rewriteImages: string -> string,
                         notes: set<string>, media0: set<string>,
                         fileName: string, content: string, media: set<string>, i: nat)
    requires NoteWritten(entry, archive, rewriteImages, notes, media0, fileName, content, media)
    requires i < |entry.attachments|
    ensures |Fold(Progress(rewriteImages(NoteContent(entry)), media0, []), entry.attachments, archive).links| == |entry.attachments|
    ensures exists k: nat :: OccursAt(content,
              Fold(Progress(rewriteImages(NoteContent(entry)), media0, []), entry.attachments, archive).links[i], k)
  {
    AssembledNoteLinks(rewriteImages(NoteContent(entry)), entry.attachments, archive, media0, i);
  }

  /** The state of converting one archive. */
  class Converter {
    /** Directories present in the working directory. */
    var dirs: set<string>
    /** Note files present, by notebook directory. */
    var noteFiles: map<string, set<string>>
    /** Attachment files present in the media directory, by notebook directory. */
    var mediaFiles: map<string, set<string>>
    /** `notebook_id_to_path_index`. */
    var notebookIndex: map<string, Notebook>
    /** `note_id_to_title_index`. */
    var noteTitles: map<string, string>
    /** `converted_note_ids`, in conversion order. */
    var converted: seq<string>
    /** The number of notebooks the archive listed so far. */
    var notebookCount: nat
    /** Every note ID processed so far, in order. */
    ghost var processed: seq<string>

    ghost predicate Valid()
      reads this
    {
      && RecycleBinId in notebookIndex
      && IndexValid(notebookIndex, dirs, noteFiles, mediaFiles)
      && Bookkept(noteTitles, converted, processed)
    }

    /** Starts an archive: allocates and creates the Recycle-bin directory
        (with its media directory) and registers it under `RecycleBinId`. */
    constructor (dirs0: set<string>)
      ensures Valid()
      ensures notebookIndex.Keys == {RecycleBinId}
      ensures FirstFree(RecycleBinName, RecycleBinName, "", Occupied(dirs0), notebookIndex[RecycleBinId].path)
      ensures dirs == dirs0 + {notebookIndex[RecycleBinId].path}
      ensures noteFiles == map[notebookIndex[RecycleBinId].path := {}]
      ensures mediaFiles == map[notebookIndex[RecycleBinId].path := {}]
      ensures noteTitles == map[] && converted == [] && processed == [] && notebookCount == 0
    {
      var path := AllocateRecycleBin(dirs0);
      dirs := dirs0 + {path};
      noteFiles := map[path := {}];
      mediaFiles := map[path := {}];
      notebookIndex := map[RecycleBinId := Notebook(path, MediaPathOf(path))];
      noteTitles := map[];
      converted := [];
      notebookCount := 0;
      processed := [];
    }

    /** One notebook listed by the archive: allocates and creates its
        directory and media directory and (re)registers the ID. */
    method AddNotebook(id: string, title: string)
      requires Valid()
      modifies this
      ensures Valid()
      ensures id in notebookIndex
      ensures FirstFree(NotebookStem(title), NotebookStem(title), "", Occupied(old(dirs)), notebookIndex[id].path)
      ensures notebookIndex == old(notebookIndex)[id := Notebook(notebookIndex[id].path, MediaPathOf(notebookIndex[id].path))]
      ensures dirs == old(dirs) + {notebookIndex[id].path}
      ensures noteFiles == old(noteFiles)[notebookIndex[id].path := {}]
      ensures mediaFiles == old(mediaFiles)[notebookIndex[id].path := {}]
      ensures notebookCount == old(notebookCount) + 1
      ensures noteTitles == old(noteTitles) && converted == old(converted) && processed == old(processed)
    {
      var path := AllocateNotebookDir(title, dirs);
      RegisterNotebook(id, path);
    }

    /** Creates the notebook directory `path` with its empty media directory
        and registers it under `id`. */
    method RegisterNotebook(id: string, path: string)
      requires Valid()
      modifies this
      ensures Valid()
      ensures notebookIndex == old(notebookIndex)[id := Notebook(path, MediaPathOf(path))]
      ensures dirs == old(dirs) + {path}
      ensures noteFiles == old(noteFiles)[path := {}] && mediaFiles == old(mediaFiles)[path := {}]
      ensures notebookCount == old(notebookCount) + 1
      ensures noteTitles == old(noteTitles) && converted == old(converted) && processed == old(processed)
    {
      EntriesStayValid(notebookIndex, dirs, noteFiles, mediaFiles, id, path);
      dirs := dirs + {path};
      noteFiles, mediaFiles := noteFiles[path := {}], mediaFiles[path := {}];
      notebookIndex := notebookIndex[id := Notebook(path, MediaPathOf(path))];
      notebookCount := notebookCount + 1;
    }

    /** Records a processed note's title and, when it gets converted, its ID. */
    method RecordNote(id: string, title: string, convert: bool)
      requires Valid()
      modifies this
      ensures Valid()
      ensures noteTitles == old(noteTitles)[id := title] && processed == old(processed) + [id]
      ensures converted == if convert then old(converted) + [id] else old(converted)
      ensures dirs == old(dirs) && noteFiles == old(noteFiles) && mediaFiles == old(mediaFiles)
      ensures notebookIndex == old(notebookIndex) && notebookCount == old(notebookCount)
    {
      NoteBookkept(noteTitles, converted, processed, id, title);
      noteTitles, processed := noteTitles[id := title], processed + [id];
      if convert {
        converted := converted + [id];
      }
    }

    /** Adds a written note file and the attachments stored for it to the listings of `path`. */
    method StoreNote(path: string, fileName: string, media: set<string>)
      requires Valid() && path in noteFiles
      modifies this
      ensures Valid()
      ensures noteFiles == old(noteFiles)[path := old(noteFiles)[path] + {fileName}]
      ensures mediaFiles == old(mediaFiles)[path := media]
      ensures dirs == old(dirs) && notebookIndex == old(notebookIndex) && notebookCount == old(notebookCount)
      ensures noteTitles == old(noteTitles) && converted == old(converted) && processed == old(processed)
    {
      ListingsStayValid(notebookIndex, dirs, noteFiles, mediaFiles, path, noteFiles[path] + {fileName}, media);
      noteFiles, mediaFiles := noteFiles[path := noteFiles[path] + {fileName}], mediaFiles[path := media];
    }

    /** One note listed by the archive. Its title is recorded; if its parent
        does not resolve nothing else happens; otherwise its attachments are
        stored and linked, its file is allocated and written, and the note
        counts as converted. Image tags are rewritten by `rewriteImages`
        before the attachments are processed. */
    method ConvertNote(id: string, entry: NoteEntry, archive: Archive, rewriteImages: string -> string)
      returns (outcome: Outcome)
      requires Valid()
      modifies this
      ensures Valid()
      ensures noteTitles == old(noteTitles)[id := NoteTitle(entry)]
      ensures processed == old(processed) + [id]
      ensures outcome.Skipped? <==> Parent(entry, old(notebookIndex)).None?
      ensures outcome.Skipped? ==>
                converted == old(converted) && noteFiles == old(noteFiles) && mediaFiles == old(mediaFiles)
      ensures outcome.Written? ==>
                var nb := Parent(entry, old(notebookIndex)).value;
                && outcome.dir == nb.path
                && nb.path in mediaFiles
                && NoteWritten(entry, archive, rewriteImages, old(noteFiles)[nb.path], old(mediaFiles)[nb.path],
                               outcome.fileName, outcome.content, mediaFiles[nb.path])
                && noteFiles == old(noteFiles)[nb.path := old(noteFiles)[nb.path] + {outcome.fileName}]
                && mediaFiles == old(mediaFiles)[nb.path := mediaFiles[nb.path]]
                && converted == old(converted) + [id]
      ensures dirs == old(dirs) && notebookIndex == old(notebookIndex) && notebookCount == old(notebookCount)
    {
      var parent := Parent(entry, notebookIndex);
      RecordNote(id, NoteTitle(entry), parent.Some?);
      if parent.None? {
        outcome := Skipped;
        return;
      }
      var nb := parent.value;
      var fileName, content, media := WriteNote(entry, archive, rewriteImages, noteFiles[nb.path], mediaFiles[nb.path]);
      StoreNote(nb.path, fileName, media);
      outcome := Written(nb.path, fileName, content);
    }

    /** `not_converted_note_ids`. */
    function NotConvertedIds(): set<string>
      reads this
    {
      NotConverted(noteTitles.Keys, converted)
    }

    /** The closing summary: notebooks listed, notes converted, notes seen. */
    function Summary(): (int, int, int)
      reads this
    {
      (notebookCount, |converted|, |noteTitles|)
    }

    /** Every converted note was seen; the seen notes split into converted and
        not-converted ones; and when no note ID was listed twice the converted
        count is at most the total count. */
    lemma SummaryConsistent()
      requires Valid()
      ensures Elements(converted) <= noteTitles.Keys
      ensures |NotConvertedIds()| + |Elements(converted)| == |noteTitles|
      ensures NoDuplicates(processed) ==> Summary().1 <= Summary().2
    {
      forall x | x in Elements(converted) ensures x in noteTitles.Keys {
        assert x in multiset(converted);
      }
      NotConvertedPartition(noteTitles.Keys, converted);
      if NoDuplicates(processed) {
        ConvertedAtMostSeen(processed, converted);
      }
    }
  }

  /** A title that sanitising leaves alone and that names neither a directory
      alias nor the Recycle bin. */
  predicate PlainTitle(t: string)
  {
    IsSafe(t) && 0 < |t| <= MaxNameLength && t !in DirAliases && t != RecycleBinName
  }

  /** An archive with one notebook holding one note without attachments, in an
      empty working directory: the notebook directory is the notebook's title,
      the file is the note's title with `.htm`, and the body is written as it is. */
  method SingleNoteArchive(notebookTitle: string, noteTitle: string, body: string) returns (outcome: Outcome)
    requires PlainTitle(notebookTitle) && IsSafe(noteTitle) && 0 < |noteTitle| <= MaxNameLength
    ensures outcome == Written(notebookTitle, noteTitle + NoteExtension, body)
  {
    var c := new Converter({});
    SanitiseKeepsSafe(notebookTitle);
    c.AddNotebook("nb", notebookTitle);
    SanitiseKeepsSafe(noteTitle);
    var entry := NoteEntry(Some(noteTitle), Some(body), Some("nb"), []);
    assert Parent(entry, c.notebookIndex) == Some(c.notebookIndex["nb"]);
    outcome := c.ConvertNote("n", entry, map[], s => s);
  }

  /** Two notebooks with the same title, in an empty working directory, get the
      directories `title` and `title_1`. */
  method TwoNotebooksSameTitle(title: string) returns (first: string, second: string)
    requires PlainTitle(title)
    ensures first == title && second == Numbered(title, 1, "")
  {
    var c := new Converter({});
    assert c.dirs == {RecycleBinName};
    var taken := Occupied(c.dirs);
    var retry := Numbered(title, 1, "");
    assert |retry| >= 3;
    assert retry != RecycleBinName by {
      assert retry[|retry| - 2] == '_';
    }
    assert title !in taken && retry !in taken;
    SanitiseKeepsSafe(title);
    assert NotebookStem(title) == title;
    c.AddNotebook("a", title);
    first := c.notebookIndex["a"].path;
    assert FirstFree(title, title, "", taken, first);
    var afterFirst := c.dirs;
    c.AddNotebook("b", title);
    second := c.notebookIndex["b"].path;
    assert FirstFree(title, title, "", Occupied(afterFirst), second);
    NumberedDiffersFromStem(title, 1, "");
    assert Occupied(afterFirst) == taken + {first};
    SameNameTwice(title, title, "", taken, first, second);
  }

  /** No retry of a plain title is the Recycle bin, a directory alias or the title itself. */
  lemma PlainRetry(title: string, j: nat)
    requires PlainTitle(title) && 1 <= j
    ensures Numbered(title, j, "") !in Occupied({RecycleBinName})
    ensures Numbered(title, j, "") != title
  {
    var r, d := Numbered(title, j, ""), NatToString(j);
    assert r[|r| - 1] == d[|d| - 1];
    assert |r| >= |title| + 2;
    NumberedDiffersFromStem(title, j, "");
    assert title + "" == title;
  }

  /** The `i`-th directory (from 0) that notebooks titled `title` get in an empty working directory. */
  function SameTitleDir(title: string, i: nat): string
  {
    if i == 0 then title else Numbered(title, i, "")
  }

  /** The directories of the first `n` notebooks titled `title`, in order. */
  function SameTitleDirs(title: string, n: nat): (r: seq<string>)
    ensures |r| == n
    ensures forall j :: 0 <= j < n ==> r[j] == SameTitleDir(title, j)
  {
    if n == 0 then [] else SameTitleDirs(title, n - 1) + [SameTitleDir(title, n - 1)]
  }

  /** The names taken in an empty working directory once `i` notebooks titled
      `title` have their directories. */
  ghost function TakenAfter(title: string, i: nat): set<string>
  {
    Occupied({RecycleBinName}) + (if i == 0 then {} else {title} + Retries(title, "", i))
  }

  /** One more notebook titled `title` gets the next directory. */
  lemma NextSameTitleDir(title: string, i: nat, path: string)
    requires PlainTitle(title)
    requires FirstFree(title, title, "", TakenAfter(title, i), path)
    ensures path == SameTitleDir(title, i)
    ensures TakenAfter(title, i) + {path} == TakenAfter(title, i + 1)
  {
    var others := Occupied({RecycleBinName});
    if i == 0 {
      assert Retries(title, "", 1) == {};
    } else {
      forall j: nat | 1 <= j ensures Numbered(title, j, "") !in others && Numbered(title, j, "") != title {
        PlainRetry(title, j);
      }
      NthSameName(title, title, "", others, i);
      FirstFreeUnique(title, title, "", TakenAfter(title, i), path, Numbered(title, i, ""));
      assert Retries(title, "", i + 1) == Retries(title, "", i) + {Numbered(title, i, "")};
    }
  }

  /** Notebooks that all have the same title, listed one after another in an
      empty working directory, get the directories `title`, `title_1`,
      `title_2`, ..., in the order they are listed. */
  method SameTitleNotebooks(title: string, ids: seq<string>) returns (paths: seq<string>)
    requires PlainTitle(title)
    ensures paths == SameTitleDirs(title, |ids|)
  {
    var c := new Converter({});
    assert Occupied(c.dirs) == TakenAfter(title, 0) by {
      assert c.dirs == {RecycleBinName};
    }
    PlainStem(title);
    paths := [];
    for i := 0 to |ids|
      invariant c.Valid()
      invariant paths == SameTitleDirs(title, i)
      invariant Occupied(c.dirs) == TakenAfter(title, i)
    {
      var path := AddSameTitle(c, ids[i], title, i);
      paths := paths + [path];
    }
  }

  /** A plain title is its own notebook stem. */
  lemma PlainStem(title: string)
    requires PlainTitle(title)
    ensures NotebookStem(title) == title
  {
    SanitiseKeepsSafe(title);
  }

  /** The `i`-th notebook titled `title` gets the `i`-th directory. */
  method AddSameTitle(c: Converter, id: string, title: string, i: nat) returns (path: string)
    requires c.Valid() && PlainTitle(title) && NotebookStem(title) == title
    requires Occupied(c.dirs) == TakenAfter(title, i)
    modifies c
    ensures c.Valid()
    ensures path == SameTitleDir(title, i)
    ensures Occupied(c.dirs) == TakenAfter(title, i + 1)
  {
    c.AddNotebook(id, title);
    path := c.notebookIndex[id].path;
    NextSameTitleDir(title, i, path);
  }
}
