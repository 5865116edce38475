# nsx2html in Dafny

`nsx2html.py` converts Synology Note Station export archives (`.nsx`) into
directories of HTML notes. For every archive it creates a `Recycle bin`
directory plus one directory per notebook, each with a `media` directory;
it writes one `.htm` file per note whose parent notebook resolves, stores
the note's attachments in the media directory, links them from an
`Attachments:` line and rewrites their reference tokens in the note body;
finally it reports how many notes were converted and which were not.

This project models the naming and content-assembly rules of that script
and proves their properties:

- `text.dfy` (`Text`): Python's `str.replace` and `str.join` on strings.
- `decimal.dfy` (`Decimal`): `'{}'.format(n)` for the retry counters, with
  the round trip that makes distinct counters give distinct names.
- `sanitise.dfy` (`Sanitising`): `sanitise_path_string`, both as the
  script's chain of replacements (a method with its two loops) and as a
  character-by-character reference definition; they are proved equal.
- `allocate.dfy` (`Allocate`): the four collision-avoidance loops (Recycle
  bin, notebook directory, note file, attachment file) over sets of names
  already present, each a method proved against a specification.
- `attachments.dfy` (`Attachments`): the per-note attachment loop as a
  method proved equal to a fold over the attachments, and the
  `Attachments:` line.
- `conversion.dfy` (`Conversion`): the per-archive state as a class whose
  methods add notebooks and convert notes, with the converted and
  not-converted bookkeeping behind the closing summary.

The filesystem is modelled as sets of names: the directories in the
working directory, and per notebook directory the note files and the
files in its media directory. Joined onto a directory, the names `''`,
`.` and `..` denote a directory, so `is_dir()` holds for them and
`is_file()` does not, and writing bytes to them fails (`DirAliases`).
Names are compared exactly, character by character: on a case-insensitive
filesystem `work` would count as taken once `Work` exists, which is not
modelled.

## Model

| member | source | states |
|---|---|---|
| Text.ReplaceAll | nsx2html.py:24-29 | definition: Python's `str.replace` for a non-empty pattern, replacing the occurrences found left to right without overlap |
| Text.ReplaceAbsent | nsx2html.py:133-136 | a replacement whose pattern does not occur leaves the string unchanged |
| Text.ReplaceCharConcat | nsx2html.py:23-29 | replacing one character distributes over concatenation |
| Text.ReplaceCharShort | nsx2html.py:23-29 | on a string of at most one character, replacing `c` gives `rep` exactly when the character is `c` |
| Text.Join | nsx2html.py:139 | definition: Python's `', '.join`, the parts in order with the separator between neighbours |
| Text.JoinContains | nsx2html.py:139 | every part occurs in the joined string |
| Decimal.NatToString | nsx2html.py:56 | the rendering of a counter is a non-empty string of digits, of two or more digits from 10 on |
| Decimal.ParseNatToString | nsx2html.py:56 | reading the decimal rendering back gives the number |
| Decimal.NatToStringInjective | nsx2html.py:72 | distinct counters render differently |
| Sanitising.Sanitise | nsx2html.py:22-31 | definition: every character mapped by `SafeChar`, then the first 240 characters; `SanitisePathString` and `ReplacedIsCharwise` prove it equal to the script's chain |
| Sanitising.ReplaceEach | nsx2html.py:23-26 | definition: one of the script's replacement loops, replacing each listed character by `rep` in turn |
| Sanitising.Replaced | nsx2html.py:23-29 | definition: the script's chain: the four dash replacements, the two deletions, then `<`, `>` and `"` in that order |
| Sanitising.SanitisePathString | nsx2html.py:22-31 | the script's replacement loops and slice compute exactly the character-by-character map truncated to 240 characters |
| Sanitising.ReplacedIsCharwise | nsx2html.py:23-29 | the chain of nine replacements equals mapping every character: colon, slash, backslash and vertical bar to `-`, `? *` deleted, `<` to `(`, `>` to `)`, `"` to `'`, every other character kept in order |
| Sanitising.ReplacedConcat | nsx2html.py:23-29 | the replacement chain distributes over concatenation |
| Sanitising.ReplacedSingle | nsx2html.py:23-29 | on one character the replacement chain gives that character's mapping |
| Sanitising.ReplaceEachConcat | nsx2html.py:23-26 | a loop of one-character replacements distributes over concatenation |
| Sanitising.ReplaceEachShort | nsx2html.py:23-26 | on at most one character, a loop of one-character replacements replaces it exactly when it is one of the loop's characters |
| Sanitising.MapCharsSafe | nsx2html.py:23-29 | the character map leaves no unsafe character and never lengthens the string |
| Sanitising.MapCharsKeepsSafe | nsx2html.py:23-29 | the character map keeps a string without unsafe characters as it is |
| Sanitising.SanitiseIsSafe | nsx2html.py:22-31 | a sanitised string has at most 240 characters, is no longer than the input and contains no colon, slash, backslash, vertical bar, `?`, `*`, `<`, `>` or `"` |
| Sanitising.SanitiseKeepsSafe | nsx2html.py:22-31 | a safe string of at most 240 characters is its own sanitised form |
| Sanitising.SanitiseIdempotent | nsx2html.py:22-31 | sanitising twice is sanitising once |
| Sanitising.MediaDirNameIsSanitised | nsx2html.py:35 | sanitising the configured `media` leaves it unchanged |
| Allocate.Numbered | nsx2html.py:72 | definition: the retry candidate for counter `n`: the stem, `_`, the counter in decimal, then the extension |
| Allocate.NumberedInjective | nsx2html.py:56 | distinct counters give distinct retry candidates |
| Allocate.NumberedDiffersFromStem | nsx2html.py:56 | a retry candidate never equals the first candidate `stem + ext` |
| Allocate.FirstFreeUnique | nsx2html.py:54-57 | the first-free description (first candidate if free, else the smallest free retry) determines the name |
| Allocate.SameNameTwice | nsx2html.py:70-78 | allocating twice from the same stem, with the first result taken the second time, gives the stem and then `stem_1` |
| Allocate.NthSameName | nsx2html.py:67-78 | with the first candidate and the first `k - 1` retries taken and nothing else in the way, the allocation gives the `k`-th retry; so `n` allocations of one name give `first`, `stem_1`, ..., `stem_(n-1)` in order |
| Allocate.AllocateNumbered | nsx2html.py:54-57 | the counter loop returns a name not taken: the first candidate when it is free, otherwise the retry with the smallest counter whose candidate is free |
| Allocate.Occupied | nsx2html.py:71 | definition: the names for which `is_dir()` holds in the working directory: the directories present plus `''`, `.` and `..` |
| Allocate.AllocateRecycleBin | nsx2html.py:52-57 | the Recycle-bin directory is `Recycle bin` when that is not a directory, else the first free `Recycle bin_n` |
| Allocate.NotebookTitle | nsx2html.py:67 | the title is never empty: an empty notebook title becomes exactly `Untitled`, any other title is kept |
| Allocate.NotebookStem | nsx2html.py:67-68 | definition: the sanitised notebook title, after the `Untitled` fallback for an empty title |
| Allocate.AllocateNotebookDir | nsx2html.py:67-73 | the notebook directory is the sanitised title when free, else the first free `title_n`, with no second truncation |
| Allocate.NoteFileFirst | nsx2html.py:143-144 | definition: the first note-file candidate: the sanitised title, or `Untitled` when that is empty, then `.htm` |
| Allocate.AllocateNoteFile | nsx2html.py:143-150 | the note file is `(sanitise(title) or Untitled).htm` when free, else the first free `sanitise(title)_n.htm`, never a file already present |
| Allocate.RPartition | nsx2html.py:116 | definition: Python's `rpartition('.')`, the text before the last dot, the dot and the text after it, or two empty strings and the name when there is no dot |
| Allocate.Rename | nsx2html.py:116-117 | definition: one collision rebuilds the name from the text before the last dot, `_n`, the dot and the text after it |
| Allocate.Renamed | nsx2html.py:114-118 | definition: the name after collisions `1` to `k`, each renaming the previous result |
| Allocate.LastIndex | nsx2html.py:116 | the index of the last occurrence of a character, or -1 when it does not occur |
| Allocate.RenameGrows | nsx2html.py:115-118 | every rename makes the attachment name strictly longer |
| Allocate.RenameWithDot | nsx2html.py:116-117 | a name with a dot gets `_n` in front of its last dot |
| Allocate.RenameNoDot | nsx2html.py:116-117 | a name without a dot gets `_n` in front of the whole name |
| Allocate.RenamedWithDot | nsx2html.py:114-118 | renaming is cumulative: after `k` collisions `stem.ext` is `stem_1_2..._k.ext` |
| Allocate.RenamedNoDot | nsx2html.py:114-118 | after `k` collisions a name without a dot is `_k..._2_1name` |
| Allocate.RenamedWithDotExample | nsx2html.py:114-118 | `a.txt` colliding three times becomes `a_1_2_3.txt` |
| Allocate.RenamedNoDotExample | nsx2html.py:114-118 | `name` colliding twice becomes `_2_1name` |
| Allocate.FirstFreeRenaming | nsx2html.py:114-118 | the first of the cumulative renamings from the `k`-th on that is not a file present, with every earlier one present |
| Allocate.AllocateAttachmentName | nsx2html.py:114-118 | the renaming loop stops at the first name that is not a file in the media directory, which is `AttachmentName` |
| Attachments.Stored | nsx2html.py:124 | definition: writing the bytes succeeds: `file_<md5>` is in the archive and the name is not `''`, `.` or `..`, which denote a directory |
| Attachments.ChosenName | nsx2html.py:112-118 | definition: the sanitised attachment name, renamed until it is not a file in the media directory |
| Attachments.LinkFor | nsx2html.py:123-131 | definition: the media link when the bytes were stored, else a link to the attachment's `source` named after the attachment, else an empty link reading `NOT FOUND` |
| Attachments.Substitute | nsx2html.py:133-136 | definition: with a reference token and a `source`, every occurrence of the token becomes the `source`; with a token only, it becomes the media link; otherwise the body stays |
| Attachments.Step | nsx2html.py:107-136 | definition: one iteration of the loop: the chosen name, the media directory gaining it when stored, the link appended and the token substituted |
| Attachments.Fold | nsx2html.py:107-136 | definition: the loop's iterations over the attachments, in order |
| Attachments.FoldLinkKinds | nsx2html.py:123-131 | the link the loop records for the `i`-th attachment, whose name was chosen against the media directory the earlier attachments left, is `<a href="media/name">name</a>` when `file_<md5>` is in the archive and the name denotes a file, otherwise `<a href="source">name</a>` for a non-empty source, otherwise `<a href="">NOT FOUND</a>` |
| Attachments.SubstituteWithoutRef | nsx2html.py:133-136 | an attachment whose reference token does not occur in the body leaves the body unchanged |
| Attachments.WithAttachmentLine | nsx2html.py:138-139 | no links leave the content unchanged; a non-empty list gives `Attachments: `, then the links joined by `, `, then two spaces and a line break, then the whole content |
| Attachments.LinkInLine | nsx2html.py:138-139 | every link of a non-empty list occurs in the text with the attachment line |
| Attachments.ProcessAttachments | nsx2html.py:106-136 | the attachment loop computes exactly the fold of one step per attachment, in order, over content, media names and links |
| Attachments.StepMedia | nsx2html.py:114-125 | each attachment's name is new to the media directory, and the directory after the attachment is exactly the one before plus that name when the bytes were stored, and unchanged otherwise |
| Attachments.FoldLinks | nsx2html.py:104-131 | the attachment list holds one link per attachment, in attachment order, each computed from the media directory the earlier attachments left |
| Attachments.FoldMediaGrows | nsx2html.py:114-125 | the media directory only grows, by at most one name per attachment |
| Attachments.FoldNothingStored | nsx2html.py:123-126 | when no attachment's bytes are in the archive, the media directory is unchanged |
| Attachments.FoldWithoutRefs | nsx2html.py:133-136 | attachments without reference tokens leave the body unchanged |
| Attachments.AssembleNote | nsx2html.py:103-139 | definition: the attachment loop over the body, then the `Attachments:` line in front of the result, with the media directory the loop leaves |
| Attachments.AssembleNoteShape | nsx2html.py:103-139 | a note without attachments keeps its body and media directory; one with attachments gets a line starting `Attachments: ` in front of its substituted body, which it ends with unchanged |
| Attachments.AssembledNoteLinks | nsx2html.py:104-139 | the assembled note contains the link the loop recorded for each attachment |
| Conversion.NoteTitle | nsx2html.py:86 | definition: the note's title, `Untitled` when the record has none |
| Conversion.NoteContent | nsx2html.py:101 | definition: the note's body, empty when the record has none |
| Conversion.Parent | nsx2html.py:92-96 | the parent notebook resolves exactly when `parent_id` is present and registered, and is then the registered one |
| Conversion.NotConvertedPartition | nsx2html.py:162 | the not-converted IDs and the converted IDs are disjoint and together make up the seen IDs |
| Conversion.DistinctElements | nsx2html.py:83 | a list of distinct IDs has as many elements as its set |
| Conversion.ConvertedAtMostSeen | nsx2html.py:175-178 | with no ID listed twice, no more notes are converted than seen |
| Conversion.EntriesStayValid | nsx2html.py:75-78 | registering a new notebook directory keeps every registered notebook's directory and listings present |
| Conversion.ListingsStayValid | nsx2html.py:152 | changing the listings of a notebook directory keeps the notebook index valid |
| Conversion.NoteBookkept | nsx2html.py:90 | recording a note's title, with or without converting it, keeps the title index equal to the processed notes and the converted notes among them |
| Conversion.NoteWritten | nsx2html.py:100-150 | definition: the content is the assembled note over the rewritten body, the media directory is the one the attachment loop leaves, and the file name is the first free one for the note's title |
| Conversion.WriteNote | nsx2html.py:100-150 | the attachment loop over the rewritten body, the `Attachments:` line and the first free file name for the note, with the file name new and the media directory grown |
| Conversion.WrittenNoteLinks | nsx2html.py:104-139 | a written note contains the link of each of its attachments, whose kind `FoldLinkKinds` gives |
| Conversion.Converter.constructor | nsx2html.py:50-61 | the Recycle-bin directory is allocated and created with its media directory and registered under `1027_#00000000`; nothing is listed yet |
| Conversion.Converter.AddNotebook | nsx2html.py:65-78 | the notebook directory is allocated from the title and created with its media directory, the ID is (re)registered and the notebook count grows by one; nothing else changes |
| Conversion.Converter.RegisterNotebook | nsx2html.py:75-78 | the directory and its empty listings are added and the ID maps to it |
| Conversion.Converter.RecordNote | nsx2html.py:90 | the title is recorded under the note ID, and the ID is appended to the converted list when the note is converted |
| Conversion.Converter.StoreNote | nsx2html.py:152 | the note file joins the notebook's note files and the media directory takes its new listing |
| Conversion.Converter.NotConvertedIds | nsx2html.py:162 | definition: the seen note IDs minus the converted ones |
| Conversion.Converter.Summary | nsx2html.py:175-178 | definition: the notebooks listed, the length of the converted list and the number of notes seen |
| Conversion.Converter.ConvertNote | nsx2html.py:83-154 | the title is always recorded; the note is skipped exactly when its parent does not resolve, and then nothing else changes; otherwise the parent directory gets the first free file holding the assembled content, the media directory is updated and the note counts as converted |
| Conversion.Converter.SummaryConsistent | nsx2html.py:162-178 | every converted note was seen, the not-converted and converted notes add up to the total, and converted is at most total when no ID was listed twice |
| Conversion.SingleNoteArchive | nsx2html.py:50-154 | one notebook with one attachment-free note in an empty directory gives `notebook/note.htm` holding the body unchanged, with the image rewrite taken as the identity |
| Conversion.TwoNotebooksSameTitle | nsx2html.py:65-78 | two notebooks with the same title get the directories `title` and `title_1` |
| Conversion.PlainRetry | nsx2html.py:70-73 | a retry of a plain title is neither the Recycle bin, a directory alias nor the title itself |
| Conversion.SameTitleDirs | nsx2html.py:67-78 | the list of the first `n` directories notebooks with one title get: `title`, then `title_1`, `title_2`, ... |
| Conversion.NextSameTitleDir | nsx2html.py:67-78 | after `i` notebooks with a plain title, the next one gets the `i`-th directory of that list, which is then taken as well |
| Conversion.AddSameTitle | nsx2html.py:64-78 | adding the next notebook with that title through the converter gives that directory |
| Conversion.SameTitleNotebooks | nsx2html.py:64-78 | any number of notebooks with the same plain title, listed in an empty working directory, get `title`, `title_1`, ..., in the order listed |

## Left out

- Zip reading and JSON decoding (nsx2html.py:48-49, 66, 84): the archive's notebook and note records are given as values, and its attachment entries as a map from `file_<md5>` to bytes.
- JSON `null` values: a null notebook title behaves as the empty title. A null attachment `source` would give the link `<a href="None">NOT FOUND</a>` when the bytes are missing (nsx2html.py:111, 127-131), and a null note `content` makes the image rewrite raise (nsx2html.py:100-101); neither is modelled, and nor are null note titles, attachment names and md5 values.
- Missing `md5` or `name` keys of an attachment and a missing notebook `title` end the script with an exception; the model always has these fields.
- The regular-expression rewrite of image tags (nsx2html.py:100-101) is the parameter `rewriteImages`, applied to the body before the attachments.
- The creation-date prefix (nsx2html.py:140-141) is off by default (nsx2html.py:15) and depends on the local time zone.
- Console output and input, command-line arguments and the glob for `.nsx` files (nsx2html.py:38-45, 63, 98, 130, 164-168, 186).
- The removal of empty directories at the end of an archive (nsx2html.py:156-160, 179-183), whose failures are ignored. The loop removes every registered notebook's empty media directory, including the Recycle bin's, since the Recycle bin is in the notebook index; the later attempt to remove the Recycle bin's media directory then fails, so the empty `Recycle bin` directory itself stays. Only when a listed notebook has the ID `1027_#00000000`, replacing the Recycle bin in the index, are the Recycle bin's empty media directory and the empty Recycle bin itself removed.
- The bytes and text written: the model records which names exist, not their contents, except that the content of each note is returned.
- Operating-system write failures other than the directory aliases, such as names too long for the filesystem.
- `mkdir` failing because a file (not a directory) of the chosen name exists in the working directory, which ends the script.
- Several archives in one run: the model converts one archive, starting from the directories already present.
- The `notebook`/`notebooks` word of the summary (nsx2html.py:170-173); the counts it prints are modelled by `Summary`.
- Conversion.Converter.SummaryConsistent: the converted count is bounded by the total only when no note ID is listed twice, because a repeated ID is appended to `converted_note_ids` once per listing but counted once in the title index.
