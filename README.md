# Portfolio front end: gallery, contact editor and contact page

This project models the logic of the portfolio site's Next.js front end that is more than
rendering and REST calls:

- **Admin gallery** (`frontend/pages/portal-carlos-2501/index.tsx`):
  - `toBlocks` merges a category's images and videos into one list, sorted by position and then id.
  - `slidesFrom` picks the carousel slides.
  - `itemsBySlide` files the other media under their slide key and sorts each bucket by position.
  - `stats` computes the counters.
  - `moveUp` and `moveDown` build the category order to submit.
  - `fullUrl` resolves a media URL.
  - The social-links editor normalises a link (`normalize`) and decides whether `save` deletes or stores it.
- **Admin contact editor** (`frontend/pages/portal-carlos-2501/contact.tsx`):
  - The page holds a list of text, image and video blocks. It shows them in position order, split into an image section and a section of the other blocks.
  - Moving, removing, editing and adding a block each rewrite the list.
  - The editor is the class `ContactEditor.Editor`, whose field `blocks` the methods reassign. Each method is proved equal to a specification function. Lemmas about those functions prove the promised properties.
  - After a move, a removal or a text edit:
    - the list is images first;
    - it is renumbered 0..n-1;
    - nothing else changes.
  - An addition, as the page writes it, puts the blocks in position order and then the new block with position n (the old block count). It does not renumber the others. On a list already numbered 0..n-1 the new block is therefore shown last and the list stays numbered (`AppendedAsWrittenWhenNumbered`). On a list loaded with gaps in its positions it can be shown in the middle (see Findings). The corrected addition renumbers the list, so the new block is always last (`AppendedSpec`).
- **Public contact page** (`frontend/pages/contact.tsx`):
  - `full` resolves a URL.
  - A video link becomes a YouTube or Vimeo player URL. The three regular expressions are modelled as leftmost-match searches.
  - The page chooses the thumbnail strip.
  - It renders the non-image blocks in position order.
  - `submit` checks the form before sending.

Shared modules model the JavaScript built-ins the pages rely on:

- `Text` covers `trim` with the ECMAScript white-space set, `startsWith`, and case-insensitive matching. For the all-ASCII lower-case patterns used here, without the `u` flag, that matching is exactly ASCII case folding.
- `StableSort` models `Array.prototype.sort` with a comparator, which ECMAScript requires to be stable. It is a stable insertion sort. `SortedUnique` shows that every stable sort gives the same result.
- `Sequences` models `filter`, the destructuring swap and `splice(i, 1)`.

`API_ORIGIN` is the parameter `origin`. Positions and ids are integers.

## Model

| member | source | states |
|---|---|---|
| Gallery.ToBlocks | frontend/pages/portal-carlos-2501/index.tsx:42-67 | The result has one block per image and per video. It is a permutation of the tagged images followed by the tagged videos. It ascends by (position, with missing as 0; id). Blocks with equal position and id keep their input order, images before videos. |
| Gallery.ToBlocksRecords | frontend/pages/portal-carlos-2501/index.tsx:43-62 | A block is in the list iff it is some image tagged `Image` with `image_url` or "", or some video tagged `Video` with `video_url` or "". No record is dropped or invented. |
| Gallery.SlidesFrom | frontend/pages/portal-carlos-2501/index.tsx:69-72 | The result is the carousel blocks in input order when there are any, and the whole input when there are none. It is empty iff the input is empty. |
| Gallery.NoneMarked | frontend/pages/portal-carlos-2501/index.tsx:70 | With no block marked, the carousel filter finds nothing, so `slidesFrom` falls back to all blocks. |
| Gallery.SlidesAreMarked | frontend/pages/portal-carlos-2501/index.tsx:69-72 | When some block is marked, every marked block is a slide, as often as it occurs, and no unmarked block is a slide. |
| Gallery.FullUrl | frontend/pages/portal-carlos-2501/index.tsx:73-75 | A URL with an `http://` or `https://` scheme, in any letter case, is kept. Anything else is appended to the origin. Its partner is `FullUrlIdempotent`. |
| Gallery.FullUrlIdempotent | frontend/pages/portal-carlos-2501/index.tsx:73-75 | With an origin that has an http(s) scheme, resolving a resolved URL again changes nothing. |
| Gallery.ItemsBySlide | frontend/pages/portal-carlos-2501/index.tsx:209-221 | The bucket keys are exactly the non-empty slide keys of non-slide media. Each bucket is the stable position sort of the media filed under its key, in list order. |
| Gallery.FileBySlide | frontend/pages/portal-carlos-2501/index.tsx:210-216 | After the first loop, each key's bucket holds exactly the media filed under it, in list order. Slides and media without a key are skipped. |
| Gallery.SortEachBucket | frontend/pages/portal-carlos-2501/index.tsx:217-219 | The second loop sorts every bucket by position and keeps the set of keys. |
| Gallery.BucketContents | frontend/pages/portal-carlos-2501/index.tsx:209-221 | A key has a bucket iff some non-slide medium carries it. The bucket holds each such medium as often as the list does, and nothing else. It ascends by position, and equal positions keep list order. |
| Gallery.ComputeStats | frontend/pages/portal-carlos-2501/index.tsx:223-229 | `slides` is the length of `slidesFrom`, and `items` = `imgItems` + `vidItems`. With slides marked, slides + items is the block count. With none marked, both equal the block count. |
| Gallery.StatsCounts | frontend/pages/portal-carlos-2501/index.tsx:225-227 | Each counter equals the number of indices holding its kind of block: `items` the non-slide blocks, `imgItems` the non-slide images, `vidItems` the non-slide videos. This is counted independently of the filters that compute it. |
| Gallery.MoveUp | frontend/pages/portal-carlos-2501/index.tsx:180-185 | Nothing is submitted iff idx <= 0. Otherwise the ids are submitted with entries idx-1 and idx exchanged and every other entry unchanged, which is a permutation of the ids. |
| Gallery.MoveDown | frontend/pages/portal-carlos-2501/index.tsx:186-191 | Nothing is submitted iff idx >= len-1. Otherwise the ids are submitted with entries idx and idx+1 exchanged and every other entry unchanged, which is a permutation of the ids. |
| Socials.Normalize | frontend/pages/portal-carlos-2501/index.tsx:748-751 | The result is "" iff the entry is blank. A trimmed entry with an http(s) scheme in any case is kept as it is. Any other entry becomes "https://" + the trimmed entry. A non-empty result always has a scheme and is trimmed. |
| Socials.NormalizeIdempotent | frontend/pages/portal-carlos-2501/index.tsx:748-751 | Normalising twice equals normalising once. |
| Socials.Save | frontend/pages/portal-carlos-2501/index.tsx:753-758 | The link is deleted iff the entry is blank. Otherwise the normalised link is stored, and it has a scheme. |
| Text.Trim | frontend/pages/portal-carlos-2501/index.tsx:749 | `trim` leaves no white space at either end, and gives "" iff the string is all white space. |
| Text.TrimSlice | frontend/pages/portal-carlos-2501/index.tsx:749 | `trim` returns the slice of its input between a blank prefix and a blank suffix. |
| Text.TrimOfTrimmed | frontend/pages/portal-carlos-2501/index.tsx:749 | `trim` leaves a string without end white space unchanged, so it is idempotent. |
| StableSort.SortBySpec | frontend/pages/portal-carlos-2501/index.tsx:63-67 | The sort returns a permutation in ascending rank. Elements of equal rank keep their input order. |
| StableSort.SortedUnique | frontend/pages/portal-carlos-2501/index.tsx:63-67 | Two sequences in ascending rank that agree on the order within each rank are equal. Every stable sort therefore gives the modelled result. |
| StableSort.SortCommutesWithFilter | frontend/pages/contact.tsx:202-204 | Filtering and then sorting gives the same sequence as sorting and then filtering. |
| ContactBlocks.Loaded | frontend/pages/portal-carlos-2501/contact.tsx:55-58 | On load, each block keeps its stored position when it has one, and otherwise gets its index in the loaded list. The contents are unchanged. |
| ContactBlocks.LoadWithoutPositions | frontend/pages/portal-carlos-2501/contact.tsx:55-58 | A list loaded without positions is numbered 0..n-1 and shown in the order received. |
| ContactBlocks.SortedBlocks | frontend/pages/portal-carlos-2501/contact.tsx:66-69 | `sortedBlocks` is a permutation of the blocks in ascending position. Equal positions keep list order. |
| ContactBlocks.WellNumberedIsSorted | frontend/pages/portal-carlos-2501/contact.tsx:66-69 | A list numbered 0..n-1 is shown in list order. |
| ContactBlocks.Renumber | frontend/pages/portal-carlos-2501/contact.tsx:85 | Renumbering keeps the number of blocks. |
| ContactBlocks.RenumberSpec | frontend/pages/portal-carlos-2501/contact.tsx:85 | Renumbering gives positions 0..n-1 in list order and keeps the contents of every block, in order. |
| ContactBlocks.SectionsPartition | frontend/pages/portal-carlos-2501/contact.tsx:72-73 | `imageBlocks` holds only images and `otherBlocks` holds none. Together they hold every block exactly as often as the list does, and their lengths add up to the list's. Both ascend by position. |
| ContactEditor.Rebuilt | frontend/pages/portal-carlos-2501/contact.tsx:84-85 | The rebuilt list is as long as the new section and the other section together. Its contents are stated by `RebuiltShape`. |
| ContactEditor.RebuiltShape | frontend/pages/portal-carlos-2501/contact.tsx:84-85 | Rebuilding from a section of the right kind gives a list numbered 0..n-1, images first and shown in list order. The changed section holds the new entries' contents and the other section is unchanged. |
| ContactEditor.Removed | frontend/pages/portal-carlos-2501/contact.tsx:88-93 | `remove` leaves exactly one block fewer. |
| ContactEditor.EditedText | frontend/pages/portal-carlos-2501/contact.tsx:362-373 | A text edit keeps the number of blocks. |
| ContactEditor.AppendedAsWrittenContents | frontend/pages/portal-carlos-2501/contact.tsx:95-100 | The addition as written loses no block and adds exactly one, the new block with the old block count as its position. |
| ContactEditor.MovedSpec | frontend/pages/portal-carlos-2501/contact.tsx:79-86 | A move inside the section keeps the block count and exchanges exactly entries idx and j of that section. The other section is unchanged. The list is images first and numbered 0..n-1, and it is displayed in list order. |
| ContactEditor.RemovedSpec | frontend/pages/portal-carlos-2501/contact.tsx:88-93 | `remove` leaves one block fewer, and the section loses exactly its entry idx. The other section is unchanged. The list is images first and numbered 0..n-1. |
| ContactEditor.EditedTextSpec | frontend/pages/portal-carlos-2501/contact.tsx:369-372 | A text edit changes only the content of other-section entry idx. The image section is unchanged. The list is images first and numbered 0..n-1. |
| ContactEditor.AppendedAsWrittenWhenNumbered | frontend/pages/portal-carlos-2501/contact.tsx:95-100 | On a list numbered 0..n-1, the addition as written puts the new block last with position n, and the list stays numbered. |
| ContactEditor.AppendedAsWrittenOutOfOrder | frontend/pages/portal-carlos-2501/contact.tsx:95-100 | With stored positions 0 and 5, the addition as written shows the new block second of three. |
| ContactEditor.AppendedSpec | frontend/pages/portal-carlos-2501/contact.tsx:95-141 | The corrected addition leaves one block more, numbered 0..n, shown in list order. It is the old display order followed by the new block. |
| ContactEditor.Editor.constructor | frontend/pages/portal-carlos-2501/contact.tsx:55-58 | The editor starts with the loaded blocks. |
| ContactEditor.Editor.Move | frontend/pages/portal-carlos-2501/contact.tsx:79-86 | Nothing changes when idx + dir leaves the section. Otherwise the stored list is the section with entries idx and idx + dir exchanged, rebuilt. |
| ContactEditor.Editor.Remove | frontend/pages/portal-carlos-2501/contact.tsx:88-93 | The new list is the section without entry idx, rebuilt. |
| ContactEditor.Editor.EditText | frontend/pages/portal-carlos-2501/contact.tsx:362-373 | Setting the content of a copied text entry gives the rebuilt list with that one content replaced. |
| ContactEditor.Editor.AddText | frontend/pages/portal-carlos-2501/contact.tsx:95-100 | The stored list is the addition as written of an empty text block: the blocks in position order, then the new block with position n. |
| ContactEditor.Editor.AddImageLocal | frontend/pages/portal-carlos-2501/contact.tsx:102-116 | The uploaded image is added as written. A failed upload changes nothing. |
| ContactEditor.Editor.AddVideoLocal | frontend/pages/portal-carlos-2501/contact.tsx:118-132 | The uploaded video is added as written. A failed upload changes nothing. |
| ContactEditor.Editor.AddVideoUrl | frontend/pages/portal-carlos-2501/contact.tsx:134-141 | A blank link changes nothing. Otherwise a video block with the trimmed link is added as written. |
| ContactPage.Full | frontend/pages/contact.tsx:51 | A URL beginning with "http" (case-sensitive) is kept. Any other is appended to the origin. Its partners are `FullIdempotent` and `FullDiffersFromFullUrl`. |
| ContactPage.FullIdempotent | frontend/pages/contact.tsx:51 | With an origin starting with "http", `full` gives a URL starting with "http", and applying `full` again changes nothing. |
| ContactPage.FullDiffersFromFullUrl | frontend/pages/contact.tsx:51 | The case-sensitive "http" test differs from the admin `fullUrl`: "httpdocs/a.png" is kept here and resolved there, and "HTTP://x" is resolved here and kept there. |
| ContactPage.HitFrom | frontend/pages/contact.tsx:219-224 | The search returns the leftmost index at or after i where the pattern and one accepted character match, and None iff there is no such index. |
| ContactPage.Run | frontend/pages/contact.tsx:219-224 | The greedy run is the longest slice of accepted characters from `start`. |
| ContactPage.CaptureSpec | frontend/pages/contact.tsx:219-224 | A capture group matches iff some hit exists. It is then the whole run of accepted characters after the leftmost hit, and it is non-empty. |
| ContactPage.YouTubeId | frontend/pages/contact.tsx:219-221 | An id, when found, is non-empty, so the `if (id)` guard holds exactly when one is found. |
| ContactPage.VimeoId | frontend/pages/contact.tsx:223-225 | A Vimeo id is found iff the link passes the Vimeo test, and it is then non-empty. |
| ContactPage.EmbedFor | frontend/pages/contact.tsx:213-244 | The block is played in an iframe iff its link passes the YouTube or the Vimeo test, and otherwise in a `<video>` element. |
| ContactPage.YouTubeIdSpec | frontend/pages/contact.tsx:219-221 | The id is the capture after the leftmost "v=" with no '&'. Only when that fails is it the capture after "youtu.be/" with no '?'. There is none iff neither pattern hits. |
| ContactPage.VimeoIdExists | frontend/pages/contact.tsx:223-225 | Every link detected as Vimeo has an id, which is a run of digits. |
| ContactPage.EmbedSpec | frontend/pages/contact.tsx:213-244 | An iframe is used iff the link is YouTube or Vimeo. A YouTube link with an id becomes the YouTube embed URL of that id; without one it is kept unchanged. A Vimeo link becomes the player URL of its leftmost digit run. Anything else plays from `full` of the link. |
| ContactPage.WatchLinkWithoutId | frontend/pages/contact.tsx:217-222 | A watch link whose "v=" is followed by '&' has no id, and is handed to the iframe unchanged. |
| ContactPage.EmbedNotIdempotent | frontend/pages/contact.tsx:213-228 | "youtu.be/vimeo.com/5" becomes a YouTube embed URL, which the same rule then turns into a Vimeo player URL. |
| ContactPage.ChosenThumbnails | frontend/pages/contact.tsx:93-96 | The thumbnail list is empty iff no block is an image. |
| ContactPage.ChosenSpec | frontend/pages/contact.tsx:93-96 | Every image block gives a thumbnail at its rank among the image blocks (the number of image blocks before it), and that thumbnail is `full` of the block's URL. |
| ContactPage.ChosenAppend | frontend/pages/contact.tsx:93-96 | The thumbnails of a + b are those of a followed by those of b. |
| ContactPage.FallbackThumbnails | frontend/pages/contact.tsx:76-88 | A failed fetch gives no thumbnails. Every fallback thumbnail is the origin followed by a non-empty image URL. |
| ContactPage.Thumbnails | frontend/pages/contact.tsx:93-103 | The image blocks' thumbnails are used when some block is an image, and the category fallback exactly when none is. |
| ContactPage.Strip | frontend/pages/contact.tsx:146 | The strip shows the thumbnails twice, each copy in order. |
| ContactPage.ContentBlocks | frontend/pages/contact.tsx:202-204 | The rendered blocks are the non-image blocks, each as often as stored, in ascending position (missing as 0). |
| ContactPage.ContentMatchesAdmin | frontend/pages/contact.tsx:202-204 | The rendered blocks equal the admin page's other section of the same blocks. When every block has a position, they equal the other section the admin editor loads. |
| ContactPage.Submission | frontend/pages/contact.tsx:112-123 | A message is sent iff the honeypot is blank and none of the four fields is. It carries the four trimmed values, each non-empty and trimmed. |
| ContactPage.AfterSubmit | frontend/pages/contact.tsx:124-133 | After a delivered message the four fields are cleared. Otherwise the form is unchanged. The honeypot is never touched. |
| ContactPage.NoDoubleSend | frontend/pages/contact.tsx:112-128 | Submitting again after a delivered message sends nothing. |

Two properties of the contact page's player URLs are worth noting:

- The contact page tries the `v=` form of a YouTube link first and falls back to `youtu.be/` only when `v=` gives no id (`YouTubeIdSpec`). The public category page's `getYouTubeId` (`frontend/pages/category/[id].tsx:41-45`, which is not part of this model) tries `youtu.be/` first.
- The contact page's derivation is not idempotent (`EmbedNotIdempotent`).

## Left out

- Network and storage. The models take the results as parameters:
  - uploads are `Option<string>`, with `None` for a failed request;
  - the category fallback is `Option<seq<seq<string>>>`;
  - `moveUp`/`moveDown` return the order they would submit.

  Tokens, redirects, alerts and the other CRUD calls are not modelled.
- ContactPage.FallbackThumbnails: models only how the fallback URLs are built. The sequential fetching of categories and details is I/O.
- React rendering, effects and memoisation. Memoised values are plain functions. The effect that picks the default active slide (`frontend/pages/portal-carlos-2501/index.tsx:198-207`) is UI state and is not modelled.
- `null` and `undefined` are both `None`, and `x || ""` is `GetOr("")`. A block's `url || ""` is its URL string. The `caption` and `in_carousel` fields, which no modelled logic reads, are not modelled.
- Gallery.ItemsBySlide: the dictionary is a `map`. Slide keys that clash with `Object.prototype` members are not modelled.
- JavaScript numbers: positions and ids are unbounded integers. Fractional, NaN or huge values are not modelled, and neither is a comparator that returns NaN.
- ContactEditor.Editor.Move: the destructuring swap on the copied array is modelled as the value `Swap` of the section. The copy is fresh, so no sharing is lost.
- ContactEditor.Editor.AddImageLocal and ContactEditor.Editor.AddVideoLocal: the model applies each upload as one atomic step to the current list. The page awaits the upload and then stores `[...sortedBlocks, new block]`, with the `sortedBlocks` captured when the handler started (`frontend/pages/portal-carlos-2501/contact.tsx:102-132`). A block added, moved, removed or edited during the upload, or a second upload finishing first, is therefore overwritten by that stale snapshot. The model does not capture this, and `AppendedAsWrittenContents` ("no block is lost") holds only for uploads that do not overlap other edits.
- ContactEditor.Editor.EditText: the source writes the new content into the block object it shares with the current state before storing the rebuilt list. The model builds new values, so that aliasing is not captured.
- Gallery.MoveUp and Gallery.MoveDown require an index inside the category list, as the page only calls them with a rendered index.
- The Editor methods and their specifications take `idx` inside its section. `dir` is -1 or 1, as the buttons pass.
- The adding methods of ContactEditor.Editor store `AppendedAsWritten`, the addition as the page writes it. The corrected `Appended` under Findings is proved about separately and is not used by the editor.
- The regular expressions are modelled only for the patterns the page uses, with ASCII case folding.
- `toEmbedUrl` and `toAutoplayEmbedUrl` of the public category page, and `frontend/pages/api/api.ts`, are not part of this model. `API_ORIGIN`, including its trailing-slash removal, is the opaque parameter `origin`.

## Findings

| source | as written | input that shows it | evidently intended | confidence | as-written member | corrected member |
|---|---|---|---|---|---|---|
| frontend/pages/portal-carlos-2501/contact.tsx:95-141 | `addText`, `addImageLocal`, `addVideoLocal` and `addVideoUrl` append the new block with position `sortedBlocks.length` and do not renumber the others | stored blocks with positions 0 and 5, then `addText`: the new block gets position 2 and is shown between them | the added block is shown last, as on a list numbered 0..n-1 after any move, removal or edit | medium, not executed | ContactEditor.AppendedAsWrittenOutOfOrder | ContactEditor.AppendedSpec |
