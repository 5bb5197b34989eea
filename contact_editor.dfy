/** The contact-page editor of the admin panel. The page keeps the list of contact blocks,
    shows it as an image section and a section of the other blocks, and rewrites the list
    when a block is moved, removed, edited or added. After a move, a removal or a text
    edit the stored list is the image section followed by the other section, renumbered
    0, 1, ..., n - 1; an addition puts the new block after the blocks in position order. */
module ContactEditor {
  import opened Options
  import opened Text
  import opened Sequences
  import opened StableSort
  import opened ContactBlocks

  datatype Section = Images | Others

  function OtherOf(section: Section): Section {
    if section == Images then Others else Images
  }

  /** The section a button acts on (`imageBlocks` or `otherBlocks`). */
  function SectionOf(blocks: seq<Block>, section: Section): seq<Block> {
    if section == Images then ImageSection(blocks) else OtherSection(blocks)
  }

  /** The list stored after the section `section` was replaced by `arr`:
      `[...arr, ...otherBlocks]` or `[...imageBlocks, ...arr]`, renumbered. */
  function Rebuilt(blocks: seq<Block>, section: Section, arr: seq<Block>): (r: seq<Block>)
    ensures |r| == |arr| + |SectionOf(blocks, OtherOf(section))|
  {
    Renumber(if section == Images then arr + OtherSection(blocks) else ImageSection(blocks) + arr)
  }

  /** The new list after `remove`: the section without its entry `idx`, rebuilt. */
  function Removed(blocks: seq<Block>, section: Section, idx: nat): (r: seq<Block>)
    requires idx < |SectionOf(blocks, section)|
    ensures |r| == |blocks| - 1
  {
    SectionOfKind(blocks, section);
    Rebuilt(blocks, section, RemoveAt(SectionOf(blocks, section), idx))
  }

  /** The new list after the text of the `idx`-th other block, a text block (only those
      show a text area), is edited. */
  function EditedText(blocks: seq<Block>, idx: nat, text: string): (r: seq<Block>)
    requires idx < |OtherSection(blocks)| && OtherSection(blocks)[idx].body.TextBody?
    ensures |r| == |blocks|
  {
    SectionOfKind(blocks, Others);
    var others := OtherSection(blocks);
    Rebuilt(blocks, Others, others[idx := Block(TextBody(text), others[idx].position)])
  }

  /** The new list after `addText`, `addImageLocal`, `addVideoLocal` or `addVideoUrl`, as
      the page computes it: the blocks in position order, then the new block with the
      number of blocks as its position. The other blocks keep their positions. */
  function AppendedAsWritten(blocks: seq<Block>, body: Body): (r: seq<Block>)
  {
    SortedBlocks(blocks) + [Block(body, |blocks|)]
  }

  /** As written, an addition loses no block and adds exactly the new one, with the old
      number of blocks as its position. */
  lemma AppendedAsWrittenContents(blocks: seq<Block>, body: Body)
    ensures |AppendedAsWritten(blocks, body)| == |blocks| + 1
    ensures multiset(AppendedAsWritten(blocks, body)) == multiset(blocks) + multiset{Block(body, |blocks|)}
  {
    var sorted := SortedBlocks(blocks);
    assert |sorted| == |blocks| by {
      assert |multiset(sorted)| == |multiset(blocks)|;
    }
  }

  /** The same list renumbered, so that the new block is the last one shown. */
  function Appended(blocks: seq<Block>, body: Body): seq<Block> {
    Renumber(AppendedAsWritten(blocks, body))
  }

  /** Renumbering an image part followed by a part without images gives a list numbered
      0..n-1, images first, whose sections hold the two parts. */
  lemma RenumberSplit(a: seq<Block>, b: seq<Block>)
    requires forall i :: 0 <= i < |a| ==> IsImage(a[i])
    requires forall i :: 0 <= i < |b| ==> !IsImage(b[i])
    ensures var r := Renumber(a + b);
      && |r| == |a| + |b|
      && WellNumbered(r)
      && SortedBlocks(r) == r
      && Bodies(ImageSection(r)) == Bodies(a)
      && Bodies(OtherSection(r)) == Bodies(b)
  {
    var r := Renumber(a + b);
    assert WellNumbered(r);
    WellNumberedIsSorted(r);
    RenumberFilters(a, b);
    assert Bodies(ImageSection(r)) == Bodies(a) by {
      assert ImageSection(r) == Filter(r, IsImage);
    }
    assert Bodies(OtherSection(r)) == Bodies(b) by {
      assert OtherSection(r) == Filter(r, NotImage);
    }
  }

  lemma RenumberFilters(a: seq<Block>, b: seq<Block>)
    requires forall i :: 0 <= i < |a| ==> IsImage(a[i])
    requires forall i :: 0 <= i < |b| ==> !IsImage(b[i])
    ensures Bodies(Filter(Renumber(a + b), IsImage)) == Bodies(a)
    ensures Bodies(Filter(Renumber(a + b), NotImage)) == Bodies(b)
  {
    FilterRenumberBodies(a + b, 0);
    FilterParts(a, b);
  }

  lemma FilterParts(a: seq<Block>, b: seq<Block>)
    requires forall i :: 0 <= i < |a| ==> IsImage(a[i])
    requires forall i :: 0 <= i < |b| ==> !IsImage(b[i])
    ensures Filter(a + b, IsImage) == a
    ensures Filter(a + b, NotImage) == b
  {
    FilterAppend(a, b, IsImage);
    FilterAll(a, IsImage);
    FilterNone(b, IsImage);
    FilterAppend(a, b, NotImage);
    FilterNone(a, NotImage);
    FilterAll(b, NotImage);
  }

  lemma RenumberImagesFirst(a: seq<Block>, b: seq<Block>)
    requires forall i :: 0 <= i < |a| ==> IsImage(a[i])
    requires forall i :: 0 <= i < |b| ==> !IsImage(b[i])
    ensures ImagesFirst(Renumber(a + b))
  {
    var r := Renumber(a + b);
    forall i, j | 0 <= i < j < |r| && IsImage(r[j])
      ensures IsImage(r[i])
    {
      assert r[j].body == (a + b)[j].body;
      assert r[i].body == (a + b)[i].body;
    }
  }

  /** Every block of `arr` belongs in `section`. */
  predicate OfKind(section: Section, arr: seq<Block>) {
    forall i :: 0 <= i < |arr| ==> IsImage(arr[i]) == (section == Images)
  }

  lemma SwapOfKind(section: Section, s: seq<Block>, i: nat, j: nat)
    requires OfKind(section, s) && i < |s| && j < |s|
    ensures OfKind(section, Swap(s, i, j))
  {
    var r := Swap(s, i, j);
    forall k | 0 <= k < |r|
      ensures IsImage(r[k]) == (section == Images)
    {
      if k == i {
      } else if k == j {
      }
    }
  }

  lemma RemoveAtOfKind(section: Section, s: seq<Block>, i: nat)
    requires OfKind(section, s) && i < |s|
    ensures OfKind(section, RemoveAt(s, i))
  {
    var r := RemoveAt(s, i);
    forall k | 0 <= k < |r|
      ensures IsImage(r[k]) == (section == Images)
    {
      if k >= i {
        assert r[k] == s[k + 1];
      }
    }
  }

  lemma SectionOfKind(blocks: seq<Block>, section: Section)
    ensures OfKind(section, SectionOf(blocks, section))
    ensures OfKind(OtherOf(section), SectionOf(blocks, OtherOf(section)))
    ensures |SectionOf(blocks, section)| + |SectionOf(blocks, OtherOf(section))| == |blocks|
  {
    SectionsPartition(blocks, Block(TextBody(""), 0));
  }

  /** The shape of a rebuilt list: positions 0..n-1 in list order (so it is shown in list
      order), image blocks first, the changed section holds `arr` and the other section is
      as it was. */
  lemma RebuiltShape(blocks: seq<Block>, section: Section, arr: seq<Block>)
    requires OfKind(section, arr)
    ensures var r := Rebuilt(blocks, section, arr);
      && |r| == |arr| + |SectionOf(blocks, OtherOf(section))|
      && WellNumbered(r)
      && ImagesFirst(r)
      && SortedBlocks(r) == r
      && Bodies(SectionOf(r, section)) == Bodies(arr)
      && Bodies(SectionOf(r, OtherOf(section))) == Bodies(SectionOf(blocks, OtherOf(section)))
  {
    SectionsPartition(blocks, Block(TextBody(""), 0));
    if section == Images {
      RenumberSplit(arr, OtherSection(blocks));
      RenumberImagesFirst(arr, OtherSection(blocks));
    } else {
      RenumberSplit(ImageSection(blocks), arr);
      RenumberImagesFirst(ImageSection(blocks), arr);
    }
  }

  /** `move` with a target `j = idx + dir` inside the section rebuilds the list from the
      section with entries `idx` and `j` exchanged: the moved section shows the exchange,
      the other section is unchanged, no block is lost, and the list is renumbered images
      first. */
  lemma MovedSpec(blocks: seq<Block>, section: Section, idx: nat, j: nat)
    requires idx < |SectionOf(blocks, section)| && j < |SectionOf(blocks, section)|
    ensures var r := Rebuilt(blocks, section, Swap(SectionOf(blocks, section), idx, j));
      && |r| == |blocks|
      && WellNumbered(r) && ImagesFirst(r) && SortedBlocks(r) == r
      && Bodies(SectionOf(r, section)) == Bodies(Swap(SectionOf(blocks, section), idx, j))
      && Bodies(SectionOf(r, OtherOf(section))) == Bodies(SectionOf(blocks, OtherOf(section)))
  {
    var sec := SectionOf(blocks, section);
    SectionOfKind(blocks, section);
    SwapOfKind(section, sec, idx, j);
    RebuiltShape(blocks, section, Swap(sec, idx, j));
  }

  /** `remove` drops exactly the entry `idx` of its section: one block fewer, the other
      section unchanged, the list renumbered images first. */
  lemma RemovedSpec(blocks: seq<Block>, section: Section, idx: nat)
    requires idx < |SectionOf(blocks, section)|
    ensures var r := Removed(blocks, section, idx);
      && |r| == |blocks| - 1
      && WellNumbered(r) && ImagesFirst(r) && SortedBlocks(r) == r
      && Bodies(SectionOf(r, section)) == Bodies(RemoveAt(SectionOf(blocks, section), idx))
      && Bodies(SectionOf(r, OtherOf(section))) == Bodies(SectionOf(blocks, OtherOf(section)))
  {
    var sec := SectionOf(blocks, section);
    var rest := RemoveAt(sec, idx);
    SectionOfKind(blocks, section);
    RemoveAtOfKind(section, sec, idx);
    RebuiltShape(blocks, section, rest);
  }

  /** A text edit replaces the content of that one block: the image section is unchanged,
      the other section differs only at `idx`, and the list is renumbered images first. */
  lemma EditedTextSpec(blocks: seq<Block>, idx: nat, text: string)
    requires idx < |OtherSection(blocks)| && OtherSection(blocks)[idx].body.TextBody?
    ensures var r := EditedText(blocks, idx, text);
      && |r| == |blocks|
      && WellNumbered(r) && ImagesFirst(r) && SortedBlocks(r) == r
      && Bodies(ImageSection(r)) == Bodies(ImageSection(blocks))
      && Bodies(OtherSection(r)) == Bodies(OtherSection(blocks))[idx := TextBody(text)]
  {
    var others := OtherSection(blocks);
    SectionOfKind(blocks, Others);
    var arr := others[idx := Block(TextBody(text), others[idx].position)];
    assert OfKind(Others, arr);
    assert Bodies(arr) == Bodies(others)[idx := TextBody(text)];
    RebuiltShape(blocks, Others, arr);
  }

  /** With the renumbering, an added block is the last one shown and every other block
      keeps its place in the display order. */
  lemma AppendedSpec(blocks: seq<Block>, body: Body)
    ensures var r := Appended(blocks, body);
      && |r| == |blocks| + 1
      && WellNumbered(r) && SortedBlocks(r) == r
      && Bodies(r) == Bodies(SortedBlocks(blocks)) + [body]
  {
    AppendedNumbered(blocks, body);
    AppendedBodies(blocks, body);
  }

  lemma AppendedNumbered(blocks: seq<Block>, body: Body)
    ensures |Appended(blocks, body)| == |blocks| + 1
    ensures WellNumbered(Appended(blocks, body)) && SortedBlocks(Appended(blocks, body)) == Appended(blocks, body)
  {
    var sorted := SortedBlocks(blocks);
    assert |sorted| == |blocks| by {
      assert |multiset(sorted)| == |multiset(blocks)|;
    }
    var r := Appended(blocks, body);
    RenumberSpec(AppendedAsWritten(blocks, body));
    WellNumberedIsSorted(r);
  }

  lemma AppendedBodies(blocks: seq<Block>, body: Body)
    ensures Bodies(Appended(blocks, body)) == Bodies(SortedBlocks(blocks)) + [body]
  {
    RenumberSpec(AppendedAsWritten(blocks, body));
    BodiesAppend(SortedBlocks(blocks), [Block(body, |blocks|)]);
  }

  /** As written, the addition is right whenever the list is already numbered 0..n-1 (as
      every move, removal and text edit leaves it, and an addition to a numbered list): the new block is shown last
      and the list stays numbered. */
  lemma AppendedAsWrittenWhenNumbered(blocks: seq<Block>, body: Body)
    requires WellNumbered(blocks)
    ensures var r := AppendedAsWritten(blocks, body);
      && WellNumbered(r) && SortedBlocks(r) == r && r[|r| - 1] == Block(body, |blocks|)
  {
    WellNumberedIsSorted(blocks);
    WellNumberedIsSorted(AppendedAsWritten(blocks, body));
  }

  /** As written, a list loaded with a gap in its positions puts the added block in the
      middle of the display: with stored positions 0 and 5, the new block gets position 2
      and is shown second of three. */
  lemma AppendedAsWrittenOutOfOrder()
    ensures var blocks := [Block(TextBody("a"), 0), Block(TextBody("b"), 5)];
      var shown := SortedBlocks(AppendedAsWritten(blocks, TextBody("")));
      shown == [Block(TextBody("a"), 0), Block(TextBody(""), 2), Block(TextBody("b"), 5)]
  {
    var a, b, c := Block(TextBody("a"), 0), Block(TextBody("b"), 5), Block(TextBody(""), 2);
    var blocks := [a, b];
    assert Sorted([a, b], PositionRank);
    SortOfSorted([a, b], PositionRank);
    assert AppendedAsWritten(blocks, TextBody("")) == [a, b, c];
    assert [a, b, c][..2] == [a, b];
    assert [a, b][1..] == [b];
    assert Insert([b], c, PositionRank) == [c, b];
    assert Insert([a, b], c, PositionRank) == [a, c, b];
  }

  /** The contact-page editor: `blocks` is the page's `data.blocks`. */
  class Editor {
    var blocks: seq<Block>

    /** The page after loading the stored blocks. */
    constructor (stored: seq<StoredBlock>)
      ensures blocks == Loaded(stored)
    {
      blocks := Loaded(stored);
    }

    /** `move(section, idx, dir)`: copy the section, swap the entry with its neighbour,
        rebuild. */
    method Move(section: Section, idx: nat, dir: int)
      requires idx < |SectionOf(blocks, section)|
      requires dir == -1 || dir == 1
      modifies this
      ensures blocks == if 0 <= idx + dir < |SectionOf(old(blocks), section)|
                        then Rebuilt(old(blocks), section, Swap(SectionOf(old(blocks), section), idx, idx + dir))
                        else old(blocks)
    {
      if 0 <= idx + dir < |SectionOf(blocks, section)| {
        blocks := Rebuilt(blocks, section, Swap(SectionOf(blocks, section), idx, idx + dir));
      }
    }

    /** `remove(section, idx)`: copy the section, splice out one entry, rebuild. */
    method Remove(section: Section, idx: nat)
      requires idx < |SectionOf(blocks, section)|
      modifies this
      ensures blocks == Removed(old(blocks), section, idx)
    {
      var arr := SectionOf(blocks, section);
      arr := RemoveAt(arr, idx);
      blocks := Rebuilt(blocks, section, arr);
    }

    /** The text area of the `idx`-th other block: copy the section, set that block's
        content in place, rebuild. */
    method EditText(idx: nat, text: string)
      requires idx < |OtherSection(blocks)| && OtherSection(blocks)[idx].body.TextBody?
      modifies this
      ensures blocks == EditedText(old(blocks), idx, text)
    {
      var others := OtherSection(blocks);
      var arr := new Block[|others|](i requires 0 <= i < |others| => others[i]);
      arr[idx] := Block(TextBody(text), arr[idx].position);
      assert arr[..] == others[idx := Block(TextBody(text), others[idx].position)];
      blocks := Rebuilt(blocks, Others, arr[..]);
    }

    /** `addText`: an empty text block after the blocks in position order. */
    method AddText()
      modifies this
      ensures blocks == AppendedAsWritten(old(blocks), TextBody(""))
    {
      blocks := AppendedAsWritten(blocks, TextBody(""));
    }

    /** `addImageLocal`: the image the upload endpoint stored, added as written; nothing
        changes when the upload fails (`uploaded` is `None`). */
    method AddImageLocal(uploaded: Option<string>)
      modifies this
      ensures blocks == if uploaded.Some? then AppendedAsWritten(old(blocks), ImageBody(uploaded.value)) else old(blocks)
    {
      if uploaded.None? {
        return;
      }
      blocks := AppendedAsWritten(blocks, ImageBody(uploaded.value));
    }

    /** `addVideoLocal`: the video the upload endpoint stored, added as written; nothing
        changes when the upload fails. */
    method AddVideoLocal(uploaded: Option<string>)
      modifies this
      ensures blocks == if uploaded.Some? then AppendedAsWritten(old(blocks), VideoBody(uploaded.value)) else old(blocks)
    {
      if uploaded.None? {
        return;
      }
      blocks := AppendedAsWritten(blocks, VideoBody(uploaded.value));
    }

    /** `addVideoUrl`: the trimmed link as a video block, added as written; a blank link
        changes nothing. */
    method AddVideoUrl(url: string)
      modifies this
      ensures Blank(url) ==> blocks == old(blocks)
      ensures !Blank(url) ==> blocks == AppendedAsWritten(old(blocks), VideoBody(Trim(url)))
    {
      var clean := Trim(url);
      if clean == "" {
        return;
      }
      blocks := AppendedAsWritten(blocks, VideoBody(clean));
    }
  }
}
