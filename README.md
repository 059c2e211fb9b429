# Nanobanana studio — a verified model

Nanobanana is a single-page image studio. A user writes a prompt, optionally
uploads or edits an image, and asks a generative-image service for a picture.
The studio can also ask the service for an inspiration or an improved
prompt. Every generated image is kept in a browser-local asset library
(IndexedDB), listed newest first, and can be reused or deleted from there.

This project models the studio's core in Dafny and proves properties of that
model:

| module | models | form |
|---|---|---|
| `Types` | the shared entities: aspect ratios, assets, uploaded images, how a promise settles | datatypes |
| `JsText` | the ECMAScript string primitives the code depends on: `trim`, `split(c)[0]`, `split(c)[1]`, a global `replace` of a character class, the `\s` class and the line terminators that `.` refuses | functions and lemmas |
| `Base64` | the base64 text that `FileReader.readAsDataURL` writes and the forgiving decode behind `atob` | functions and lemmas |
| `DbService` | `services/dbService.ts`: data-URL ↔ `Blob` conversion, the memoised connection, the object store ordered by its `createdAt` index, and add / list newest first / delete | a class `AssetLibrary` over the store's rows, plus the pure parts as functions |
| `GeminiService` | `services/geminiService.ts`: choosing the API key, cleaning up an inspiration reply, stripping quotes from an optimised prompt, building the text-to-image and image-to-image requests, and taking the first inline image out of a reply | functions over the service's replies |
| `App` | `App.tsx`: the page state and every handler, including the mount effect, the shared service-call wrapper, generation plus saving to the library, asset selection (with its greedy MIME regular expression) and deletion | a class `Studio` whose fields are the `useState` hooks |
| `ImageEditor` | `components/ImageEditorModal.tsx`: the canvas plan of `getEditedImage`, the percent-to-pixel crop conversion, the sliders, reset and the save/download action | functions for the geometry, a class `EditorModal` for the component state |

Anything the browser or the network decides is an input to the model:
- the service's reply (`Settled<…>`); image generation takes the service itself, a function from request to reply (`GeminiService.ImageService`);
- the IndexedDB open reply and an optional failure of each transaction;
- `Date.now()`, `Math.random()` and `new Date()`;
- the saved `localStorage` key;
- the canvas context, the sine and cosine of the rotation, the encoded canvas;
- the initial crop that `react-image-crop` computes.

The main results:
- **Base64.** Decoding an encoding gives back the bytes (`Base64.DecodeEncode`), and the encoding's length is `4 * ceil(n / 3)`.
- **Blob round trip.** `blobToDataURL` followed by `dataURLToBlob` gives back the `Blob` for every MIME type the library stores (`DbService.ParseBlobToDataUrl`). For any URL the library accepts, storing and re-reading yields the same `Blob` (`DbService.ParsedBlobRoundTrips`).
- **The store.** It stays ordered by `createdAt` with unique ids. Its listing is the store's rows in descending key order, the only such arrangement (`DbService.NewestFirstIsDescendingPermutation`, `DbService.DescendingArrangementUnique`). Adds and deletes keep the listing in step (`DbService.ListingAfterNewestInsert`, `DbService.ListingAfterRemove`).
- **The page and the store agree.** After a successful mount load, after a successful generation whose asset is newest (with `addAsset` settling on commit; see "## Findings"), and after every delete, the gallery the page shows agrees with what a later `getAllAssets` would list (`App.Studio.Synced`).
- **The two MIME readers.**
  - They agree on every data URL `FileReader` writes (`App.MimeReadersAgree`). So selecting a library asset hands image-to-image the stored type (`App.SelectedMimeOfListedAsset`).
  - They disagree once a parameter precedes `;base64` (`App.MimeReadersDisagreeOnParameters`). These are dbService's lazy `/:(.*?);/` and App's greedy `/data:(.*);/`.
- **A finding.** `addAsset` resolves before its transaction commits, so a commit that aborts for lack of storage goes unseen (`DbService.QuotaAbortAfterResolve`). The model settles the promise with the transaction instead (`DbService.AddSettles`).
- **Inspiration clean-up.** The cleaned text is trimmed. It holds no `\n`, no quote and no asterisk. It is drawn from the first line of the trimmed reply (`GeminiService.CleanInspiration`, `GeminiService.InspirationFromFirstLine`).

## Model

| member | source | states |
|---|---|---|
| JsText.TrimSpec | services/geminiService.ts:22 | `trim` leaves no white space at either end, gives the empty string exactly when the input is all white space, adds no character, and leaves a trimmed string as it is |
| JsText.FirstIndex | services/dbService.ts:9 | the first occurrence of a separator: there is a separator at the result and none before it; the result is the length when there is none |
| JsText.FirstField | services/dbService.ts:9 | `split(c)[0]` is the prefix before the first `c`: it holds no `c` and is followed by `c` unless it is the whole string |
| JsText.SecondField | services/dbService.ts:15 | `split(c)[1]` is missing exactly when there is no `c`; otherwise it is the `c`-free field that follows the first field and its separator, and it runs up to the next `c` or the end of the string |
| JsText.RemoveChars | services/geminiService.ts:30 | a global `replace` of a character class leaves none of those characters, adds none, and leaves a string without them unchanged |
| JsText.RemoveCharsAppend | services/geminiService.ts:30 | the removal distributes over concatenation, so every character outside the class is kept, in order |
| JsText.RemoveCharsTwice | services/geminiService.ts:44 | two successive `replace` calls remove the union of their classes, so a chain of them removes every class named in it |
| JsText.FieldsOfJoin | services/geminiService.ts:76 | splitting `h + c + e` where neither side holds `c` gives back `h` and `e` |
| Base64.Value | services/dbService.ts:15 | the value of a base64 letter is the one whose letter it is (alphabet and its inverse agree) |
| Base64.EncodeGroup | services/dbService.ts:31 | three bytes encode to four alphabet letters |
| Base64.Encode | services/dbService.ts:31 | the encoding consists of alphabet letters and `=` padding only |
| Base64.EncodedLength | services/dbService.ts:31 | the encoding of `n` bytes has `4 * ((n + 2) / 3)` characters |
| Base64.DecodeEncodeUnpadded | services/dbService.ts:15 | decoding the unpadded encoding gives back the bytes |
| Base64.DropPaddingOfEncode | services/dbService.ts:15 | removing the `=` padding of an encoding leaves exactly the unpadded letters |
| Base64.DecodeEncode | services/dbService.ts:15 | the forgiving decode of an encoding gives back the bytes, and `atob` gives back their binary string |
| Base64.DecodeValidInput | services/dbService.ts:15 | input that is letters (after white space and padding are dropped) whose length is not `1 mod 4` decodes to those letters' bytes |
| Base64.LoneLetterFails | services/dbService.ts:15 | letters whose count is `1 mod 4` make `atob` throw |
| Base64.AtobUndefinedFails | services/dbService.ts:15 | `atob(undefined)`, that is `atob("undefined")`, throws, so a data URL without a comma is rejected |
| Base64.BinaryString | services/dbService.ts:19 | the binary string has one character per byte, whose code is that byte |
| Base64.Atob | services/dbService.ts:15 | `atob` succeeds exactly when the forgiving decode does, and then returns the decoded bytes as a binary string |
| DbService.AsciiLower | services/dbService.ts:21 | lower-casing keeps the length and maps exactly the letters `A`–`Z` to lower case |
| DbService.BlobTypeSpec | services/dbService.ts:21 | the `Blob` type is always a valid type, leaves a valid type unchanged, is either empty or the same length as its input, and never invents a `;` or `,` |
| DbService.StopAt | services/dbService.ts:10 | the lazy group `(.*?)` stops at the first `;` or line terminator |
| DbService.LazyMatchFrom | services/dbService.ts:10 | returns the leftmost position where `/:(.*?);/` matches, or the end when there is none |
| DbService.LazyMime | services/dbService.ts:10 | the type `/:(.*?);/` captures never holds `;` |
| DbService.LazyMimeSpec | services/dbService.ts:10-14 | the match is missing exactly when `/:(.*?);/` matches nowhere in the header |
| DbService.Payload | services/dbService.ts:15 | the text handed to `atob` holds no comma: it is the field after the first comma, or `undefined` when the URL has none |
| DbService.ParseDataUrl | services/dbService.ts:8-22 | a header without `:…;` is refused with "Invalid data URL" whatever the payload; a `Blob` read back always has a type the constructor keeps, with no `;` in it |
| DbService.DataUrlToBlob | services/dbService.ts:8-22 | `dataURLToBlob`: errors with "Invalid data URL" when the header has no `:…;`, errors when `atob` rejects the payload, and otherwise gives the `Blob` whose type is the normalised captured type and whose bytes are the payload's |
| DbService.CopyCodes | services/dbService.ts:16-20 | the countdown loop fills byte `i` with `charCodeAt(i)` truncated to 8 bits, for every `i` |
| DbService.CodesOfBinaryString | services/dbService.ts:16-20 | copying the codes of `atob`'s binary string gives back exactly the decoded bytes |
| DbService.BlobToDataUrl | services/dbService.ts:26-33 | for a type without `,`, the URL `readAsDataURL` writes splits back into the header `data:<type>;base64` and the base64 encoding of the bytes, the two fields `dataURLToBlob` reads |
| DbService.SerializedFields | services/dbService.ts:26-33 | the header and payload of a serialised `Blob` are the fields `dataURLToBlob` splits off |
| DbService.LazyMimeOfHeader | services/dbService.ts:10 | on `data:<m>;…` with `m` free of `;` and line breaks, `/:(.*?);/` captures `m` |
| DbService.ParseBlobToDataUrl | services/dbService.ts:8-33 | serialising a `Blob` (with a valid type free of `;` and `,`) and parsing the result gives back that `Blob` |
| DbService.ParsedBlobRoundTrips | services/dbService.ts:8-33 | for any data URL `dataURLToBlob` accepts, re-serialising the `Blob` and parsing again gives the same `Blob` |
| DbService.MimeWithinHeader | services/dbService.ts:10 | every character of the captured type comes from the header |
| DbService.StrLessTransitive | services/dbService.ts:55 | the string order of primary keys is transitive (it is also irreflexive and total: `StrLessIrreflexive`, `StrLessTotal`) |
| DbService.KeyLessTotal | services/dbService.ts:56 | the `createdAt` index order, with ties broken by primary key, is a strict total order on rows with distinct ids |
| DbService.InsertByKey | services/dbService.ts:87 | `store.add` leaves one more row than before, and the new row is among them |
| DbService.InsertByKeySpec | services/dbService.ts:87 | `store.add` adds exactly one row: the rows become the old ones plus the new one, as a multiset |
| DbService.InsertKeepsOrder | services/dbService.ts:87 | adding a row whose id is new keeps the index order and the uniqueness of ids |
| DbService.InsertNewest | services/dbService.ts:81-87 | a row newer than all others goes last in index order |
| DbService.RemoveId | services/dbService.ts:153 | `store.delete(id)` keeps exactly the rows with other ids and changes nothing when the id is absent |
| DbService.RemoveKeepsOrder | services/dbService.ts:153 | deleting keeps the index order and the uniqueness of ids |
| DbService.NewestFirst | services/dbService.ts:116-133 | the `'prev'` cursor visits as many records as the store holds (its order is the next rows' subject) |
| DbService.ToAsset | services/dbService.ts:120-126 | the asset pushed for a record keeps its id and prompt; its URL is the record's `Blob` re-encoded, which `ParseBlobToDataUrl` reads back |
| DbService.Listing | services/dbService.ts:99-146 | `getAllAssets` resolves with one asset per stored record |
| DbService.NewestFirstIsDescendingPermutation | services/dbService.ts:116-133 | walking the `createdAt` index with a `'prev'` cursor yields every row exactly once, newest first |
| DbService.DescendingArrangementUnique | services/dbService.ts:116-133 | only one arrangement of the rows is newest first, so the listing is determined by the stored set |
| DbService.ListingAfterNewestInsert | services/dbService.ts:72-146 | after adding an asset newer than all others, the listing is that asset followed by the old listing |
| DbService.ListsNewestFirst | services/dbService.ts:99-146 | three assets added oldest first are listed newest first |
| DbService.ListingAfterRemove | services/dbService.ts:148-163 | after deleting an id, the listing is the old listing with that id filtered out |
| DbService.AssetsWithoutId | App.tsx:167 | `filter(asset => asset.id !== id)` keeps exactly the assets with other ids; that it keeps their order and multiplicity, and changes nothing for an absent id, are the next two rows |
| DbService.WithoutAbsentId | App.tsx:167 | filtering by an id no asset has leaves the gallery as it is |
| DbService.WithoutIdAppend | App.tsx:167 | the filter works piece by piece over a concatenation, so the assets it keeps stay in their order, each once |
| DbService.Upgrade | services/dbService.ts:52-57 | `onupgradeneeded` creates the `assets` store with its `createdAt` index only when it is missing, and otherwise leaves the schema alone |
| DbService.OpenOutcome | services/dbService.ts:45-70 | opening succeeds exactly when the request does and the stored version is not newer than `DB_VERSION`; a newer version rejects with `VersionError`; a failed request rejects with its error; an upgrade from an older version leaves the `assets` store in place; no store is dropped |
| DbService.FreshDatabaseSchema | services/dbService.ts:45-70 | opening a fresh database yields the `assets` store with the `createdAt` index; an existing store is kept |
| DbService.QuotaAbortAfterResolve | services/dbService.ts:89-95 | as written, an `add` request that succeeds in a transaction whose commit aborts with `QuotaExceededError` resolves the promise, yet no row is committed |
| DbService.AddSettlesAsWritten | services/dbService.ts:89-95 | as written, the promise resolves exactly when the `add` request succeeds, while the row is committed only when the commit succeeds too |
| DbService.TransactionFault | services/dbService.ts:84-96 | the transaction fails exactly when the request or the commit does, and the request's error comes first |
| DbService.AddSettles | services/dbService.ts:84-96 | settling with the transaction, the promise resolves exactly when the row is committed, that is when neither the request nor the commit fails |
| DbService.AddResolvesExactlyWhenCommitted | services/dbService.ts:84-96 | the corrected settlement commits what the code commits, and differs from it exactly when the request succeeds and the commit aborts |
| DbService.AssetLibrary.GetDb | services/dbService.ts:45-70 | `getDb` opens the database once and hands every later caller the same settled promise, including a rejected one |
| DbService.AssetLibrary.AddAsset | services/dbService.ts:72-97 | `addAsset` rejects with the open error, then with the data-URL error, then with the transaction's error (`TransactionFault`), leaving the rows unchanged; on success it resolves with the asset under the new id `now-random`, and the rows gain exactly that row, in index order |
| DbService.AssetLibrary.CollectNewestFirst | services/dbService.ts:116-133 | the cursor loop collects the listing of the rows, newest first |
| DbService.AssetLibrary.GetAllAssets | services/dbService.ts:99-146 | `getAllAssets` rejects when opening or reading fails; otherwise it resolves with every stored asset, newest first, re-encoded as data URLs (the empty store gives the empty list); it never changes the rows |
| DbService.AssetLibrary.DeleteAsset | services/dbService.ts:148-163 | `deleteAsset` rejects when opening or the request fails, leaving the rows; otherwise it removes exactly the rows with that id |
| GeminiService.ApiKey | services/geminiService.ts:5-9 | the user's key is used when it is non-empty, otherwise the environment's; with neither it throws the missing-key error |
| GeminiService.SpaceRunEnd | services/geminiService.ts:29 | `\s*` consumes the maximal run of white space |
| GeminiService.DigitRunEnd | services/geminiService.ts:29 | `\d+` consumes the maximal run of digits |
| GeminiService.ListMarkerEnd | services/geminiService.ts:29 | when `/^\s*(\d+\.\|-\|\*)\s*/` matches, the match is a marker prefix and is followed by a non-space or the end |
| GeminiService.StripListMarker | services/geminiService.ts:29 | the result is a suffix of the line; if anything was removed, it was a list-marker prefix, and what is left starts with a non-space |
| GeminiService.MarkerIsStripped | services/geminiService.ts:29 | every line that starts with a list marker loses something |
| GeminiService.FirstOpen | services/geminiService.ts:31 | finds the leftmost `(` from which the rest of the line reaches the closing parenthesis without a line break |
| GeminiService.StripTrailingParen | services/geminiService.ts:31 | `/\s*\(.*\)\s*$/` is removed at its leftmost match: the result is a prefix, what was cut matches the pattern, and the pattern matches at no earlier position |
| GeminiService.TailParenShape | services/geminiService.ts:31 | a trailing-parenthesis match always ends at the last non-space character, which is `)` |
| GeminiService.CleanInspiration | services/geminiService.ts:22-32 | the cleaned inspiration is trimmed and holds no `\n` (a `\r`, U+2028 or U+2029 may remain inside it), no `"`, `“`, `”` or `*` |
| GeminiService.InspirationFromFirstLine | services/geminiService.ts:22-32 | every character of the cleaned inspiration comes from the first line of the trimmed reply |
| GeminiService.CleanInspirationChars | services/geminiService.ts:28-32 | every character left after the marker, quote and parenthesis steps and the final trim occurs on the first line |
| GeminiService.GenerateInspirationPrompt | services/geminiService.ts:14-33 | without a key the call rejects with the missing-key error, a failed reply rejects with its message, and otherwise the result is the cleaned reply |
| GeminiService.StripQuotes | services/geminiService.ts:44 | the optimised prompt holds no `"`, `“` or `”` |
| GeminiService.StripQuotesRemovesQuotes | services/geminiService.ts:44 | the three `replace` calls remove every `"`, `“` and `”` from the trimmed reply and nothing else |
| GeminiService.OptimizePrompt | services/geminiService.ts:35-45 | a blank prompt comes back unchanged before any key check; otherwise the missing key, then a failed reply, reject; and a reply comes back trimmed and without quotes |
| GeminiService.BlankPromptIgnoresKeyAndReply | services/geminiService.ts:36-38 | the result for a blank prompt depends on neither the key nor the reply |
| GeminiService.InlineDataUrl | services/geminiService.ts:68 | when neither the MIME type nor the payload holds a comma, `split(',')[1]` of the URL built from a part's inline data is that payload again |
| GeminiService.FirstInlineImage | services/geminiService.ts:64-70 | the loop finds no image exactly when no part carries inline data; otherwise it takes one from a part that does |
| GeminiService.ImageFromReply | services/geminiService.ts:64-72 | a failed reply rejects with its message, a reply without candidates throws, a candidate with no image part throws "no image", and otherwise the result is the first image as a data URL |
| GeminiService.TextToImageRequest | services/geminiService.ts:47-62 | the request goes to the image model with the chosen ratio, and the prompt is its only part |
| GeminiService.TextToImage | services/geminiService.ts:47-73 | the missing key rejects first; otherwise the result is the service's reply to `TextToImageRequest`, read as `ImageFromReply` reads it |
| GeminiService.ImageToImageRequest | services/geminiService.ts:75-97 | the request goes to the image model with no ratio; its first part carries `split(',')[1]` of the upload's URL with the upload's own MIME type (no inline data when that field is missing), and its second part is the prompt as text |
| GeminiService.ImageToImage | services/geminiService.ts:75-108 | the missing key rejects; otherwise the result is the service's reply to `ImageToImageRequest`, read as `ImageFromReply` reads it |
| GeminiService.ImageRoundTripsIntoRequest | services/geminiService.ts:75-97 | a generated image fed back as the uploaded image produces an image part with the same data and type |
| GeminiService.UploadIntoRequest | services/geminiService.ts:76-87 | any uploaded URL of the form header,payload with comma-free sides (what `readAsDataURL` and a canvas's `toDataURL` write) sends exactly that payload with the upload's MIME type |
| App.ErrorText | App.tsx:72 | the error shown is never empty: a non-empty thrown message is shown as it is, and an empty one gives the fallback text |
| App.LineEnd | App.tsx:158 | the greedy `.*` runs up to the first line terminator |
| App.LastSemicolon | App.tsx:158 | the greedy `(.*);` backtracks to the last `;` of the line |
| App.GreedyMatchFrom | App.tsx:158 | returns the leftmost position where `/data:(.*);/` matches, or the end when there is none |
| App.GreedyMime | App.tsx:158 | the greedy match is missing exactly when `/data:(.*);/` matches nowhere |
| App.SelectedMime | App.tsx:158 | the selected type is never empty: it is the captured type when there is a non-empty one, and `image/png` when the regex does not match or captures nothing |
| App.GreedyMimeToLastSemicolon | App.tsx:158 | on `data:<m>;<rest>` with no `;` in `rest` and no line break, the greedy group captures `m` |
| App.MimeReadersAgree | App.tsx:158 | on the URLs `FileReader` writes, `data:<m>;base64,<d>`, both dbService's lazy reader and App's greedy reader give `m` |
| App.MimeReadersDisagreeOnParameters | App.tsx:158 | on `data:<m>;<p>;base64,<d>` the lazy reader gives `m` but the greedy reader gives `m;p` |
| App.SelectedMimeOfListedAsset | App.tsx:155-159 | selecting an asset the library lists, whose stored `Blob` type is non-empty, hands image-to-image exactly that type; an asset stored with an empty type is selected as `image/png` (`App.SelectedMime`) |
| App.AgreeWithoutId | App.tsx:167 | filtering the gallery and the listing by the same id keeps them in agreement |
| App.AddedAssetIsListed | App.tsx:104 | the asset `addAsset` resolves with shows the same thing as the asset the library will list for that row |
| App.AgreeAfterNewestAdd | App.tsx:104 | prepending the resolved asset to a gallery that agrees with the listing agrees with the listing after the add, when the asset is the newest |
| App.Generation | App.tsx:91-93 | the generation's outcome is the service's answer to exactly the request `GenerationRequest` describes, read as both image calls read a reply; without a key nothing is sent and it rejects with the missing-key error |
| App.GenerationRequest | App.tsx:91-93 | a request is sent only when a key is found, to the image model; with an uploaded image it is the image-to-image request built from the prompt and that image (no ratio), otherwise the text-to-image request built from the prompt and the chosen ratio |
| App.SavedKeyTakesEffect | App.tsx:30-54 | saving a key and then mounting a fresh page on the same storage: the page's user key becomes the trimmed key at once; on the next mount a non-blank key is adopted from `localStorage` and used before the environment key, and a blank one has been removed, so the environment key decides |
| App.Studio.constructor | App.tsx:17-28 | the initial value of every `useState` hook |
| App.Studio.Mount | App.tsx:30-44 | the mount effect adopts a non-empty saved key and loads the gallery; if the listing succeeds, the gallery agrees with the store |
| App.Studio.AdoptSavedKey | App.tsx:31-34 | a non-empty saved key becomes the user key; otherwise nothing changes |
| App.Studio.LoadAssets | App.tsx:36-42 | a successful listing becomes the gallery; a failure shows the load error and empties the gallery; the store's rows are unchanged |
| App.Studio.SaveApiKey | App.tsx:46-54 | the trimmed key becomes the user key at once; a non-empty one is saved, an empty one removes the saved key |
| App.Studio.BeginServiceCall | App.tsx:61-65 | a service call starts loading, clears the error, and clears the generated image unless `clearsImage` is `false` |
| App.Studio.GenerateInspiration | App.tsx:78-80 | on success the inspiration becomes the prompt, on failure the error text shows; loading ends and the generated image is kept either way |
| App.Studio.OptimizePrompt | App.tsx:82-84 | on success the optimised prompt replaces the prompt, on failure the error text shows; loading ends and the generated image is kept |
| App.Studio.SaveToLibrary | App.tsx:97-109 | if `addAsset` succeeds, the store gains the new row and the resolved asset is prepended to the gallery; if it fails, the store is unchanged and the save error shows; nothing else changes, and a newest asset keeps the gallery in agreement with the store |
| App.Studio.KeepGeneratedImage | App.tsx:95-110 | the new image shows; if the save succeeds, the resolved asset is prepended to the gallery; if it fails, the save error shows; a newest asset keeps the gallery in agreement with the store |
| App.Studio.SettleGeneration | App.tsx:61-75 | a rejected generation ends loading with the error text and no image, leaving the store; a resolved one goes through `KeepGeneratedImage` |
| App.Studio.GenerateImage | App.tsx:86-111 | a blank prompt only shows the empty-prompt error; otherwise the request `GenerationRequest` describes is sent and settled as `SettleGeneration` states |
| App.Studio.UploadImage | App.tsx:113-117 | the upload becomes the uploaded image, the generated image and the error are cleared, and nothing else changes |
| App.Studio.ClearImage | App.tsx:119-121 | only the uploaded image is cleared |
| App.Studio.OpenEditor | App.tsx:123-125 | only the image to edit is set |
| App.Studio.CloseEditor | App.tsx:127-129 | only the image to edit is cleared |
| App.Studio.OpenPreview | App.tsx:131-133 | the preview shows the image with the current prompt |
| App.Studio.OpenAssetPreview | App.tsx:135-137 | the preview shows the asset with its own prompt |
| App.Studio.ClosePreview | App.tsx:139-141 | only the preview is cleared |
| App.Studio.SaveEdits | App.tsx:144-153 | the edited image becomes the uploaded image; the generated image, the editor and the error are cleared and the prompt is emptied |
| App.Studio.SelectAsset | App.tsx:155-162 | the asset's prompt and image (with the greedy-regex type) become the prompt and upload; the generated image is cleared and the library closes |
| App.Studio.DeleteAsset | App.tsx:164-173 | a successful delete removes the id from store and gallery; a failure shows the delete error; the gallery keeps agreeing with the store |
| App.Studio.SetPrompt | App.tsx:207 | only the prompt changes |
| App.Studio.SetAspectRatio | App.tsx:222 | only the aspect ratio changes |
| App.Studio.SetSettingsOpen | App.tsx:194 | only the settings dialog's visibility changes (it is opened here and closed at App.tsx:249) |
| App.Studio.SetAssetLibraryOpen | App.tsx:187 | only the asset library's visibility changes (it is opened here and closed at App.tsx:263) |
| ImageEditor.BoundingSize | components/ImageEditorModal.tsx:36-39 | the bounding box of a crop with non-negative sides has non-negative sides; when the sine is 0 it is the crop scaled by the cosine, and when the cosine is 0 it is the crop with its sides swapped, scaled by the sine |
| ImageEditor.Round | components/ImageEditorModal.tsx:41-42 | `Math.round` gives the integer within a half of the value, halves rounded up |
| ImageEditor.SourceRect | components/ImageEditorModal.tsx:32-33 | the source rectangle is the crop scaled by natural size over displayed size, on each axis |
| ImageEditor.GetEditedImage | components/ImageEditorModal.tsx:18-63 | it resolves exactly when a context exists, and otherwise throws `Could not get canvas context`; when it resolves the canvas is the rounded bounding box of the rotated crop, the filter carries brightness and contrast, the crop is drawn from the scaled source rectangle, and the result is a PNG |
| ImageEditor.UnrotatedCanvas | components/ImageEditorModal.tsx:38-42 | without rotation the canvas has the crop's rounded size |
| ImageEditor.QuarterTurnCanvas | components/ImageEditorModal.tsx:38-42 | a quarter turn swaps the canvas's width and height |
| ImageEditor.ComplementaryTurnSwapsCanvas | components/ImageEditorModal.tsx:36-42 | turning by the complementary angle swaps the canvas's sides |
| ImageEditor.FortyFiveDegreeCanvas | components/ImageEditorModal.tsx:36-42 | a 100 by 50 crop turned 45 degrees gets a 106 by 106 canvas |
| ImageEditor.HalfDisplaySampling | components/ImageEditorModal.tsx:49-54 | at half the intrinsic size, the crop {10, 10, 50, 50} samples {20, 20, 100, 100} of the image |
| ImageEditor.SourceWithinImage | components/ImageEditorModal.tsx:49-54 | a crop inside the displayed image samples from inside the intrinsic image |
| ImageEditor.ToPixels | components/ImageEditorModal.tsx:82-89 | the completed crop is the percent crop times the displayed size over 100 |
| ImageEditor.PercentPixelRoundTrip | components/ImageEditorModal.tsx:82-89 | percent to pixels and back loses nothing, in both directions |
| ImageEditor.PixelsWithinDisplay | components/ImageEditorModal.tsx:82-89 | a percent crop within 0..100 gives a pixel crop within the displayed image |
| ImageEditor.Clamp | components/ImageEditorModal.tsx:166 | a range input reports its value within its bounds, and the value itself when it is inside |
| ImageEditor.EditorModal.constructor | components/ImageEditorModal.tsx:67-72 | no crop, no image, rotation 0, brightness and contrast 100 |
| ImageEditor.EditorModal.AttachImage | components/ImageEditorModal.tsx:149 | `ref={imgRef}` makes the rendered image the one the editor reads |
| ImageEditor.EditorModal.OnImageLoad | components/ImageEditorModal.tsx:74-90 | the crop becomes the initial percent crop and the completed crop its pixel equivalent |
| ImageEditor.EditorModal.OnCropChange | components/ImageEditorModal.tsx:145 | only the percent crop changes |
| ImageEditor.EditorModal.OnCropComplete | components/ImageEditorModal.tsx:146 | only the completed crop changes |
| ImageEditor.EditorModal.SetRotation | components/ImageEditorModal.tsx:166 | the rotation becomes the reported value clamped to -180..180 |
| ImageEditor.EditorModal.SetBrightness | components/ImageEditorModal.tsx:170 | the brightness becomes the reported value clamped to 0..200 |
| ImageEditor.EditorModal.SetContrast | components/ImageEditorModal.tsx:174 | the contrast becomes the reported value clamped to 0..200 |
| ImageEditor.EditorModal.HandleReset | components/ImageEditorModal.tsx:114-121 | the levels return to 0, 100 and 100; with an image the crop is recomputed as on load, without one it is kept |
| ImageEditor.EditorModal.HandleEdit | components/ImageEditorModal.tsx:92-112 | without a completed crop or an image nothing happens; without a context it throws; otherwise save hands the PNG to the page and download writes `edited-image.png` |
| ImageEditor.EditorSession | components/ImageEditorModal.tsx:74-112 | a fresh editor has nothing to export, and after its image loads, save hands over the encoded PNG |

## Findings

| source | as written | input that shows it | evidently intended | confidence | as-written member | corrected member |
|---|---|---|---|---|---|---|
| services/dbService.ts:89-95 | `addAsset` resolves in the `add` request's `onsuccess`, which runs before the transaction commits, and nothing listens for the transaction's `onabort` | a generated image saved when storage is nearly full: the `add` request succeeds and the commit aborts with `QuotaExceededError` | the promise settles with the transaction, rejecting when the commit aborts, so that the "storage may be full" message of App.tsx:108 appears and App.tsx:104 does not prepend an asset the store never holds | not executed | DbService.QuotaAbortAfterResolve | DbService.AddSettles |

## Left out

- The network and the `GoogleGenAI` client are not modelled. The service's reply is a parameter. The request is modelled as the values the code passes (model, parts, ratio), not their wire format.
- Promises and `async` scheduling are not modelled. Each handler runs to completion, its awaited replies are inputs, and overlapping calls are not interleaved.
- `FileReader` is modelled only as the base64 `data:<type>;base64,<payload>` text of `readAsDataURL`. Its `onerror` path is not modelled.
- IndexedDB is modelled as the store's rows, the memoised open outcome and an optional fault per write or read. Opening against a newer stored version rejects with `VersionError` (`DbService.OpenOutcome`). Blocked opens and `versionchange` events are not modelled.
- DbService.AssetLibrary.AddAsset: a write's `fault` is the whole transaction's error, request and commit together (`DbService.TransactionFault`). The promise settles with the transaction, which is the corrected behaviour under "## Findings". The as-written settlement, which resolves on the request alone, is modelled apart (`DbService.AddSettlesAsWritten`). App's claims are proved about the corrected `AddAsset`.
- DbService.AssetLibrary.DeleteAsset: the same gap exists in `deleteAsset` (services/dbService.ts:155-161): a commit that aborts after the `delete` request succeeds is not observed. Its `fault` is likewise the transaction's error, and its as-written settlement is not modelled separately.
- `Date.now()`, `Math.random()` and `new Date()` are parameters. The new asset's `createdAt` is an integer time value.
- `localStorage` is the `savedKey` field of `App.Studio`. Browser storage failures are not modelled.
- `console.error` logging is left out because it has no effect on state.
- The rendered JSX, its buttons and their `disabled` conditions are not modelled. The modal components other than the editor (settings, asset library, preview, uploader, prompt input, aspect-ratio selector) are not part of this model.
- Strings are sequences of Unicode code points. JavaScript strings are UTF-16 code units. This affects only characters outside the Basic Multilingual Plane, in `trim`, regular-expression `.` and the string order of primary keys.
- DbService.AssetsWithoutId: its own contract states membership only, to keep its callers' proofs small. Order, multiplicity and the absent-id case are stated by `DbService.WithoutIdAppend` and `DbService.WithoutAbsentId`.
- DbService.BlobType: models the `Blob` constructor's type rule (printable ASCII lower-cased, anything else gives `""`). It does not model the browser's further MIME parsing.
- DbService.AssetLibrary.GetAllAssets: the model reads the cursor walk sequentially, as if `cursor.continue()` (services/dbService.ts:130) ran after every `await blobToDataURL(...)` (services/dbService.ts:124) with the read-only transaction still active. Whether the transaction is still active once the `FileReader` finishes is not modelled. Under IndexedDB's transaction-lifetime rules it has usually auto-committed by then, so `continue()` would throw `TransactionInactiveError` uncaught in the async handler: one record would still resolve, while two or more would leave the promise unsettled. The model promises the sequential outcome only.
- App.Studio.KeepGeneratedImage: the gallery is proved to keep agreeing with the store only when the new asset is newer than every stored one. Two assets created in the same millisecond are ordered by id, which the prepend in `App.tsx:104` does not follow.
- App.Studio.Synced: compares assets by id, prompt and decoded `Blob`, not by the data-URL string. The asset added in memory keeps the service's URL, while a reload re-encodes the stored `Blob`.
- App.Studio.GenerateImage: the blank-prompt test is written as "all white space". By `JsText.TrimSpec`, that is the same as `!prompt.trim()`. The same holds for GeminiService.OptimizePrompt.
- Base64.ForgivingDecode: its specification is its round trip (`Base64.DecodeEncode`, `Base64.DecodeValidInput`) and its failure cases (`Base64.LoneLetterFails`, `Base64.AtobUndefinedFails`). Non-zero padding bits are accepted and dropped, as the forgiving decode does.
- GeminiService.ImageFromReply: a reply is a sequence of candidates, each a sequence of parts. So a reply whose `candidates` array, or a candidate's `content` or `parts`, is missing cannot be represented. The one error path modelled is an empty `candidates` array, whose `TypeError` message is written as V8 words it ("reading 'content'"); a missing array would give "reading '0'". The same holds for the missing `response.text` in the inspiration and optimise calls.
- GeminiService.ImageToImageRequest: when the uploaded URL holds no comma, the model sends no inline data. The source sends `{ data: undefined, mimeType }`, an `inlineData` object without its payload. The parts have no way to carry a present object with a missing payload.
- DbService.ParsedBlobRoundTrips: `DbService.BlobToDataUrl` writes `data:;base64,…` for a `Blob` with an empty type, as the File API text specifies for `readAsDataURL`. Some engines write `application/octet-stream` instead. The "any URL" round trip is proved for the File API reading.
- ImageEditor.GetEditedImage: the sine and cosine of the rotation are inputs (no trigonometry). The translate/rotate calls, the filter's effect on pixels and the encoded bytes are not modelled. The result records the canvas size, filter, and source and destination rectangles.
- ImageEditor.ToPixels: the initial percent crop from `centerCrop(makeAspectCrop(…))` is an input because `react-image-crop` is not part of this model. A displayed size of zero is excluded (`Positive`).
