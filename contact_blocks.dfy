/** The blocks of the contact page (text, image or video, each with a position), as the
    contact endpoint stores them, and the views both contact pages derive from them: the
    blocks in position order, and that order split into an image section and a section of
    the other blocks. */
module ContactBlocks {
  import opened Options
  import opened Sequences
  import opened StableSort

  datatype Body = TextBody(content: string) | ImageBody(url: string) | VideoBody(url: string)

  datatype Block = Block(body: Body, position: int)

  /** A block as the endpoint returns it, before the admin page fills in a missing position. */
  datatype StoredBlock = StoredBlock(body: Body, position: Option<int>)

  /** The admin page on load: a block keeps its own position, and a block without one gets
      its index in the loaded list. */
  function Loaded(stored: seq<StoredBlock>): (r: seq<Block>)
    ensures |r| == |stored|
    ensures forall i :: 0 <= i < |r| ==>
              && r[i].body == stored[i].body
              && (stored[i].position.Some? ==> r[i].position == stored[i].position.value)
              && (stored[i].position.None? ==> r[i].position == i)
  {
    seq(|stored|, i requires 0 <= i < |stored| => Block(stored[i].body, stored[i].position.GetOr(i)))
  }

  function PositionRank(b: Block): Rank {
    Rank(b.position, 0)
  }

  /** `sortedBlocks`: the blocks in ascending position, equal positions in list order. */
  function SortedBlocks(blocks: seq<Block>): (r: seq<Block>)
    ensures multiset(r) == multiset(blocks)
    ensures Sorted(r, PositionRank)
    ensures forall k :: SameRank(r, PositionRank, k) == SameRank(blocks, PositionRank, k)
  {
    SortBySpec(blocks, PositionRank);
    SortBy(blocks, PositionRank)
  }

  predicate IsImage(b: Block) {
    b.body.ImageBody?
  }

  predicate NotImage(b: Block) {
    !b.body.ImageBody?
  }

  /** `imageBlocks`: image blocks only, none that the list does not hold. */
  function ImageSection(blocks: seq<Block>): (r: seq<Block>)
  {
    Filter(SortedBlocks(blocks), IsImage)
  }

  /** `otherBlocks`: no image block, none that the list does not hold. */
  function OtherSection(blocks: seq<Block>): (r: seq<Block>)
  {
    Filter(SortedBlocks(blocks), NotImage)
  }

  /** The two sections split the blocks: the image section holds every image block and the
      other section every other block, each as often as in the list and each in ascending
      position. */
  lemma SectionsPartition(blocks: seq<Block>, x: Block)
    ensures forall i :: 0 <= i < |ImageSection(blocks)| ==> IsImage(ImageSection(blocks)[i])
    ensures forall i :: 0 <= i < |OtherSection(blocks)| ==> !IsImage(OtherSection(blocks)[i])
    ensures multiset(ImageSection(blocks))[x] + multiset(OtherSection(blocks))[x] == multiset(blocks)[x]
    ensures |ImageSection(blocks)| + |OtherSection(blocks)| == |blocks|
    ensures Sorted(ImageSection(blocks), PositionRank) && Sorted(OtherSection(blocks), PositionRank)
  {
    var sorted := SortedBlocks(blocks);
    FilterCount(sorted, IsImage, x);
    FilterCount(sorted, NotImage, x);
    FilterSorted(sorted, IsImage, PositionRank);
    FilterSorted(sorted, NotImage, PositionRank);
    FilterLengths(sorted);
  }

  lemma {:induction false} FilterLengths(s: seq<Block>)
    ensures |Filter(s, IsImage)| + |Filter(s, NotImage)| == |s|
  {
    if |s| > 0 {
      FilterLengths(s[1..]);
    }
  }

  /** The contents of the blocks, positions left out. */
  function Bodies(s: seq<Block>): (r: seq<Body>)
    ensures |r| == |s| && forall i :: 0 <= i < |s| ==> r[i] == s[i].body
  {
    if |s| == 0 then [] else [s[0].body] + Bodies(s[1..])
  }

  /** The blocks of `s` with positions `n`, `n + 1`, ... in list order. */
  function RenumberFrom(s: seq<Block>, n: int): (r: seq<Block>)
    ensures |r| == |s|
    ensures forall i :: 0 <= i < |s| ==> r[i] == Block(s[i].body, n + i)
  {
    if |s| == 0 then [] else [Block(s[0].body, n)] + RenumberFrom(s[1..], n + 1)
  }

  /** The blocks of `s`, each given its index in `s` as its position. */
  function Renumber(s: seq<Block>): (r: seq<Block>)
    ensures |r| == |s|
  {
    RenumberFrom(s, 0)
  }

  /** Renumbering gives positions 0, 1, ..., n - 1 and changes nothing else: the contents
      stay, in the same order. */
  lemma RenumberSpec(s: seq<Block>)
    ensures WellNumbered(Renumber(s))
    ensures Bodies(Renumber(s)) == Bodies(s)
  {
  }

  /** Positions are exactly 0, 1, ..., n - 1 in list order. */
  predicate WellNumbered(s: seq<Block>) {
    forall i :: 0 <= i < |s| ==> s[i].position == i
  }

  /** No image block comes after a block that is not an image. */
  predicate ImagesFirst(s: seq<Block>) {
    forall i, j :: 0 <= i < j < |s| && IsImage(s[j]) ==> IsImage(s[i])
  }

  /** A well-numbered list is already in position order: the display order is the list
      order. */
  lemma WellNumberedIsSorted(s: seq<Block>)
    requires WellNumbered(s)
    ensures SortedBlocks(s) == s
  {
    SortOfSorted(s, PositionRank);
  }

  /** Renumbering changes positions only, so it keeps the contents of either section. */
  lemma {:induction false} FilterRenumberBodies(s: seq<Block>, n: int)
    ensures Bodies(Filter(RenumberFrom(s, n), IsImage)) == Bodies(Filter(s, IsImage))
    ensures Bodies(Filter(RenumberFrom(s, n), NotImage)) == Bodies(Filter(s, NotImage))
  {
    if |s| > 0 {
      FilterRenumberBodies(s[1..], n + 1);
      assert RenumberFrom(s, n)[1..] == RenumberFrom(s[1..], n + 1);
      BodiesAppend(if IsImage(s[0]) then [s[0]] else [], Filter(s[1..], IsImage));
      BodiesAppend(if IsImage(s[0]) then [Block(s[0].body, n)] else [], Filter(RenumberFrom(s[1..], n + 1), IsImage));
      BodiesAppend(if NotImage(s[0]) then [s[0]] else [], Filter(s[1..], NotImage));
      BodiesAppend(if NotImage(s[0]) then [Block(s[0].body, n)] else [], Filter(RenumberFrom(s[1..], n + 1), NotImage));
    }
  }

  lemma BodiesAppend(a: seq<Block>, b: seq<Block>)
    ensures Bodies(a + b) == Bodies(a) + Bodies(b)
  {
  }

  /** A list loaded without any stored position is shown in the order it was received. */
  lemma LoadWithoutPositions(stored: seq<StoredBlock>)
    requires forall i :: 0 <= i < |stored| ==> stored[i].position.None?
    ensures WellNumbered(Loaded(stored))
    ensures SortedBlocks(Loaded(stored)) == Loaded(stored)
    ensures forall i :: 0 <= i < |stored| ==> Loaded(stored)[i].body == stored[i].body
  {
    WellNumberedIsSorted(Loaded(stored));
  }
}
