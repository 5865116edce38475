/** Per-note attachment handling: every attachment gets a collision-free name
    in the notebook's media directory, contributes one link to the
    attachment list and may have its reference token in the note body
    substituted; a non-empty list becomes an `Attachments:` line in front of
    the body. */
module Attachments {
  import opened Text
  import opened Sanitising
  import opened Allocate

  newtype byte = x: int | 0 <= x < 256

  /** The archive's entries by name; an attachment's bytes are stored under `file_<md5>`. */
  type Archive = map<string, seq<byte>>

  /** An attachment record of a note: `ref` and `source` are `''` when the key is missing. */
  datatype Attachment = Attachment(ref: string, md5: string, source: string, name: string)

  /** An HTML anchor with target `href` and text `text`. */
  function Anchor(href: string, text: string): string
  {
    "<a href=\"" + href + "\">" + text + "</a>"
  }

  /** The relative link to `name` in the media directory. */
  function MediaLink(name: string): string
  {
    MediaDirName + "/" + name
  }

  const NotFound: string := "NOT FOUND"

  /** Reading `file_<md5>` from the archive and writing it to `media/name`
      both succeed: the entry exists and the name denotes a file, not the
      media directory or its parent. */
  predicate Stored(a: Attachment, name: string, archive: Archive)
  {
    "file_" + a.md5 in archive && name !in DirAliases
  }

  /** The link added to the attachment list for one attachment. */
  function LinkFor(a: Attachment, name: string, stored: bool): string
  {
    if stored then Anchor(MediaLink(name), name)
    else if a.source != "" then Anchor(a.source, name)
    else Anchor(a.source, NotFound)
  }

  /** The reference-token substitution done after each attachment. */
  function Substitute(content: string, a: Attachment, name: string): string
  {
    if a.ref != "" && a.source != "" then ReplaceAll(content, a.ref, a.source)
    else if a.ref != "" then ReplaceAll(content, a.ref, MediaLink(name))
    else content
  }

  /** The loop's state: the note body, the names in the media directory and the attachment list. */
  datatype Progress = Progress(content: string, media: set<string>, links: seq<string>)

  /** The name attachment `a` gets when the media directory holds `media`. */
  function ChosenName(a: Attachment, media: set<string>): string
  {
    AttachmentName(Sanitise(a.name), media)
  }

  /** The link attachment `a` contributes in state `p`. */
  function LinkOf(p: Progress, a: Attachment, archive: Archive): string
  {
    var name := ChosenName(a, p.media);
    LinkFor(a, name, Stored(a, name, archive))
  }

  /** One iteration of the attachment loop. */
  function Step(p: Progress, a: Attachment, archive: Archive): Progress
  {
    var name := ChosenName(a, p.media);
    var stored := Stored(a, name, archive);
    Progress(Substitute(p.content, a, name),
             if stored then p.media + {name} else p.media,
             p.links + [LinkFor(a, name, stored)])
  }

  /** The attachment loop over `atts`, in order. */
  function Fold(p: Progress, atts: seq<Attachment>, archive: Archive): Progress
    decreases |atts|
  {
    if atts == [] then p
    else Step(Fold(p, atts[..|atts| - 1], archive), atts[|atts| - 1], archive)
  }

  /** When there is at least one link: `Attachments: `, the links separated by
      commas, two spaces and a line break, then the body; the body alone otherwise. */
  function WithAttachmentLine(links: seq<string>, content: string): (r: string)
    ensures links == [] ==> r == content
    ensures links != [] ==> |r| >= |content| + 16 && r[..13] == "Attachments: " && r[|r| - |content|..] == content
    ensures links != [] ==> r[13..|r| - |content| - 3] == Join(links, ", ")
    ensures links != [] ==> r[|r| - |content| - 3..|r| - |content|] == "  \n"
  {
    if links == [] then content
    else
      var prefix := "Attachments: " + Join(links, ", ") + "  \n";
      assert (prefix + content)[..13] == prefix[..13];
      assert (prefix + content)[|prefix|..] == content;
      assert (prefix + content)[13..|prefix| - 3] == Join(links, ", ");
      assert (prefix + content)[|prefix| - 3..|prefix|] == "  \n";
      prefix + content
  }

  /** Every link of a non-empty list appears in the attachment line. */
  lemma LinkInLine(links: seq<string>, content: string, i: nat)
    requires i < |links|
    ensures exists k: nat :: OccursAt(WithAttachmentLine(links, content), links[i], k)
  {
    var r := WithAttachmentLine(links, content);
    var joined := Join(links, ", ");
    JoinContains(links, ", ", i);
    var k: nat :| OccursAt(joined, links[i], k);
    assert r[13 + k..13 + k + |links[i]|] == joined[k..k + |links[i]|];
    assert OccursAt(r, links[i], 13 + k);
  }

  /** The script's loop over a note's attachments. */
  method ProcessAttachments(atts: seq<Attachment>, archive: Archive, media0: set<string>, content0: string)
    returns (content: string, media: set<string>, links: seq<string>)
    ensures Progress(content, media, links) == Fold(Progress(content0, media0, []), atts, archive)
  {
    content, media, links := content0, media0, [];
    for i := 0 to |atts|
      invariant Progress(content, media, links) == Fold(Progress(content0, media0, []), atts[..i], archive)
    {
      assert atts[..i + 1][..i] == atts[..i];
      var a := atts[i];
      var name := SanitisePathString(a.name);
      name := AllocateAttachmentName(name, media);
      var linkPath := MediaLink(name);
      if "file_" + a.md5 in archive && name !in DirAliases {
        media := media + {name};
        links := links + [Anchor(linkPath, name)];
      } else if a.source != "" {
        links := links + [Anchor(a.source, name)];
      } else {
        links := links + [Anchor(a.source, NotFound)];
      }
      if a.ref != "" && a.source != "" {
        content := ReplaceAll(content, a.ref, a.source);
      } else if a.ref != "" {
        content := ReplaceAll(content, a.ref, linkPath);
      }
    }
    assert atts[..|atts|] == atts;
  }

  /** Each attachment's chosen name is new to the media directory, and the
      directory gains exactly that one name when the bytes were stored and
      nothing otherwise. */
  lemma StepMedia(p: Progress, a: Attachment, archive: Archive)
    ensures ChosenName(a, p.media) !in p.media
    ensures Step(p, a, archive).media
         == p.media + (if Stored(a, ChosenName(a, p.media), archive) then {ChosenName(a, p.media)} else {})
  {
  }

  /** The attachment list gets exactly one link per attachment, in the order of
      the attachments, each the link of that attachment given the media
      directory as the earlier attachments left it. */
  lemma {:induction false} FoldLinks(p: Progress, atts: seq<Attachment>, archive: Archive)
    ensures |Fold(p, atts, archive).links| == |p.links| + |atts|
    ensures Fold(p, atts, archive).links[..|p.links|] == p.links
    ensures forall i :: 0 <= i < |atts| ==>
              Fold(p, atts, archive).links[|p.links| + i] == LinkOf(Fold(p, atts[..i], archive), atts[i], archive)
    decreases |atts|
  {
    if atts != [] {
      var init, last := atts[..|atts| - 1], atts[|atts| - 1];
      var q := Fold(p, init, archive);
      FoldLinks(p, init, archive);
      var links := Fold(p, atts, archive).links;
      assert links == q.links + [LinkOf(q, last, archive)] by {
        StepLinks(q, last, archive);
      }
      forall i | 0 <= i < |atts|
        ensures links[|p.links| + i] == LinkOf(Fold(p, atts[..i], archive), atts[i], archive)
      {
        if i < |init| {
          assert init[..i] == atts[..i] && init[i] == atts[i];
          assert links[|p.links| + i] == q.links[|p.links| + i];
        } else {
          assert atts[..i] == init;
        }
      }
      assert links[..|p.links|] == q.links[..|p.links|];
    }
  }

  /** One iteration appends exactly its attachment's link. */
  lemma StepLinks(p: Progress, a: Attachment, archive: Archive)
    ensures Step(p, a, archive).links == p.links + [LinkOf(p, a, archive)]
  {
  }

  /** The media directory only grows, by at most one name per attachment. */
  lemma {:induction false} FoldMediaGrows(p: Progress, atts: seq<Attachment>, archive: Archive)
    ensures p.media <= Fold(p, atts, archive).media
    ensures |Fold(p, atts, archive).media| <= |p.media| + |atts|
    decreases |atts|
  {
    if atts != [] {
      var init := atts[..|atts| - 1];
      FoldMediaGrows(p, init, archive);
      StepMedia(Fold(p, init, archive), atts[|atts| - 1], archive);
    }
  }

  /** When none of the attachments' bytes are in the archive, nothing is
      added to the media directory. */
  lemma {:induction false} FoldNothingStored(p: Progress, atts: seq<Attachment>, archive: Archive)
    requires forall i :: 0 <= i < |atts| ==> "file_" + atts[i].md5 !in archive
    ensures Fold(p, atts, archive).media == p.media
    decreases |atts|
  {
    if atts != [] {
      FoldNothingStored(p, atts[..|atts| - 1], archive);
    }
  }

  /** Attachments without a reference token leave the note body alone. */
  lemma {:induction false} FoldWithoutRefs(p: Progress, atts: seq<Attachment>, archive: Archive)
    requires forall i :: 0 <= i < |atts| ==> atts[i].ref == ""
    ensures Fold(p, atts, archive).content == p.content
    decreases |atts|
  {
    if atts != [] {
      FoldWithoutRefs(p, atts[..|atts| - 1], archive);
    }
  }

  /** The link the loop records for the `i`-th attachment, given the name it
      chose against the media directory the earlier attachments left: to the
      stored file when its bytes are in the archive and the name denotes a
      file; otherwise to the attachment's source, or a `NOT FOUND` link with an
      empty target when there is no source. */
  lemma FoldLinkKinds(p: Progress, atts: seq<Attachment>, archive: Archive, i: nat)
    requires i < |atts|
    ensures |Fold(p, atts, archive).links| == |p.links| + |atts|
    ensures var n := ChosenName(atts[i], Fold(p, atts[..i], archive).media);
            var link := Fold(p, atts, archive).links[|p.links| + i];
            && ("file_" + atts[i].md5 in archive && n !in DirAliases ==> link == Anchor(MediaLink(n), n))
            && (!("file_" + atts[i].md5 in archive && n !in DirAliases) && atts[i].source != "" ==> link == Anchor(atts[i].source, n))
            && (!("file_" + atts[i].md5 in archive && n !in DirAliases) && atts[i].source == "" ==> link == Anchor("", NotFound))
  {
    FoldLinks(p, atts, archive);
  }

  /** An attachment whose reference token does not occur in the body leaves
      the body unchanged. */
  lemma SubstituteWithoutRef(content: string, a: Attachment, name: string)
    requires a.ref != [] ==> forall i: nat :: !OccursAt(content, a.ref, i)
    ensures Substitute(content, a, name) == content
  {
    if a.ref != [] {
      ReplaceAbsent(content, a.ref, if a.source != "" then a.source else MediaLink(name));
    }
  }

  /** The content and media directory a note ends up with. */
  function AssembleNote(content: string, atts: seq<Attachment>, archive: Archive, media: set<string>): (string, set<string>)
  {
    var p := Fold(Progress(content, media, []), atts, archive);
    (WithAttachmentLine(p.links, p.content), p.media)
  }

  /** The assembled note holds the link of every attachment. */
  lemma AssembledNoteLinks(content: string, atts: seq<Attachment>, archive: Archive, media: set<string>, i: nat)
    requires i < |atts|
    ensures |Fold(Progress(content, media, []), atts, archive).links| == |atts|
    ensures exists k: nat :: OccursAt(AssembleNote(content, atts, archive, media).0,
                                      Fold(Progress(content, media, []), atts, archive).links[i], k)
  {
    var p := Fold(Progress(content, media, []), atts, archive);
    FoldLinks(Progress(content, media, []), atts, archive);
    LinkInLine(p.links, p.content, i);
    assert AssembleNote(content, atts, archive, media).0 == WithAttachmentLine(p.links, p.content);
  }

  /** A note with attachments gets the `Attachments:` line in front of its
      (substituted) body; one without attachments keeps its body and media
      directory exactly. */
  lemma AssembleNoteShape(content: string, atts: seq<Attachment>, archive: Archive, media: set<string>)
    ensures atts == [] ==> AssembleNote(content, atts, archive, media) == (content, media)
    ensures atts != [] ==> AssembleNote(content, atts, archive, media).0[..13] == "Attachments: "
    ensures atts != [] ==> |AssembleNote(content, atts, archive, media).0| >= 16 + |Fold(Progress(content, media, []), atts, archive).content|
    ensures atts != [] ==>
              var r, c := AssembleNote(content, atts, archive, media).0, Fold(Progress(content, media, []), atts, archive).content;
              r[|r| - |c|..] == c
  {
  }
}
