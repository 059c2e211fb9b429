/**
 * The studio page (App.tsx): its React state as the fields of one object,
 * each event handler as a method that runs to completion with the outcomes
 * of the services it calls passed in, and the asset library it keeps in
 * step with the IndexedDB store.
 */
module App {

  import opened Types
  import JsText
  import Base64
  import DbService
  import GeminiService

  const LoadError: string := "无法加载您的资产库。请刷新页面或清除浏览器数据后重试。"
  const UnknownError: string := "发生未知错误。"
  const EmptyPromptError: string := "提示词不能为空。"
  const SaveError: string := "图像已生成，但无法保存到您的资产库。可能是存储空间不足。"
  const DeleteError: string := "无法删除资产。请重试。"
  const DefaultMimeType: string := "image/png"

  /** `e.message || '发生未知错误。'`: what a failed service call shows. */
  function ErrorText(message: string): (r: string)
    ensures r != ""
    ensures message != "" ==> r == message
    ensures message == "" ==> r == UnknownError
  {
    if message == "" then UnknownError else message
  }

  // ---------------------------------------------------------------------
  // The MIME type `handleSelectAsset` reads from a data URL
  // ---------------------------------------------------------------------

  /** The first line terminator at or after `i` (`|s|` when there is none):
      how far a greedy `.*` reaches. */
  function LineEnd(s: string, i: nat): (k: nat)
    requires i <= |s|
    ensures i <= k <= |s|
    ensures k < |s| ==> JsText.IsLineTerminator(s[k])
    ensures forall j :: i <= j < k ==> !JsText.IsLineTerminator(s[j])
    decreases |s| - i
  {
    if i == |s| || JsText.IsLineTerminator(s[i]) then i else LineEnd(s, i + 1)
  }

  /** The position of the last `;` in `s[i..e]`, or `e` when there is none:
      where `.*;` settles after backtracking. */
  function LastSemicolon(s: string, i: nat, e: nat): (j: nat)
    requires i <= e <= |s|
    ensures i <= j <= e
    ensures j < e ==> s[j] == ';'
    ensures forall k :: j < k < e ==> s[k] != ';'
    ensures j == e ==> forall k :: i <= k < e ==> s[k] != ';'
    decreases e - i
  {
    if e == i then e
    else if s[e - 1] == ';' then e - 1
    else
      var j := LastSemicolon(s, i, e - 1);
      if j == e - 1 then e else j
  }

  /** The regular expression `/data:(.*);/` matches at position `i`. */
  predicate GreedyMatchesAt(s: string, i: nat)
    requires i <= |s|
  {
    && i + 5 <= |s| && s[i..i + 5] == "data:"
    && LastSemicolon(s, i + 5, LineEnd(s, i + 5)) < LineEnd(s, i + 5)
  }

  /** The leftmost position at or after `i` where `/data:(.*);/` matches (`|s|`: none). */
  function GreedyMatchFrom(s: string, i: nat): (j: nat)
    requires i <= |s|
    ensures i <= j <= |s|
    ensures j < |s| ==> GreedyMatchesAt(s, j)
    ensures forall k :: i <= k < j ==> !GreedyMatchesAt(s, k)
    decreases |s| - i
  {
    if i == |s| || GreedyMatchesAt(s, i) then i else GreedyMatchFrom(s, i + 1)
  }

  /** `s.match(/data:(.*);/)?.[1]`: after the leftmost `data:` whose line
      still holds a `;`, everything up to the LAST `;` of that line. */
  function GreedyMime(s: string): (r: Option<string>)
    ensures r.None? <==> forall k :: 0 <= k < |s| ==> !GreedyMatchesAt(s, k)
  {
    var j := GreedyMatchFrom(s, 0);
    if j == |s| then None
    else Some(s[j + 5..LastSemicolon(s, j + 5, LineEnd(s, j + 5))])
  }

  /** `asset.imageDataUrl.match(/data:(.*);/)?.[1] || 'image/png'`. */
  function SelectedMime(url: string): (r: string)
    ensures r != ""
    ensures GreedyMime(url).Some? && GreedyMime(url).value != "" ==> r == GreedyMime(url).value
    ensures GreedyMime(url).None? || GreedyMime(url).value == "" ==> r == DefaultMimeType
  {
    match GreedyMime(url)
    case Some(m) => if m == "" then DefaultMimeType else m
    case None => DefaultMimeType
  }

  predicate NoLineBreak(s: string)
  {
    forall i :: 0 <= i < |s| ==> !JsText.IsLineTerminator(s[i])
  }

  lemma {:induction false} LineEndOfLine(s: string, i: nat)
    requires i <= |s| && forall j :: i <= j < |s| ==> !JsText.IsLineTerminator(s[j])
    ensures LineEnd(s, i) == |s|
    decreases |s| - i
  {
    if i < |s| {
      LineEndOfLine(s, i + 1);
    }
  }

  lemma {:induction false} LastSemicolonIs(s: string, i: nat, j: nat, e: nat)
    requires i <= j < e <= |s| && s[j] == ';'
    requires forall k :: j < k < e ==> s[k] != ';'
    ensures LastSemicolon(s, i, e) == j
    decreases e - j
  {
    if j < e - 1 {
      LastSemicolonIs(s, i, j, e - 1);
    }
  }

  /** In a data URL `data:<m>;<rest>` on one line whose `rest` holds no `;`,
      the greedy match takes exactly `m`, whatever `;` it holds. */
  lemma GreedyMimeToLastSemicolon(m: string, rest: string)
    requires NoLineBreak(m) && NoLineBreak(rest) && ';' !in rest
    ensures GreedyMime("data:" + m + ";" + rest) == Some(m)
  {
    var a := "data:" + m + ";";
    var s := a + rest;
    assert "data:" + m + ";" + rest == s;
    assert LineEnd(s, 5) == |s| by {
      forall j | 5 <= j < |s| ensures !JsText.IsLineTerminator(s[j]) {
        if j < 5 + |m| {
          assert s[j] == m[j - 5];
        } else if j >= |a| {
          assert s[j] == rest[j - |a|];
        }
      }
      LineEndOfLine(s, 5);
    }
    assert LastSemicolon(s, 5, |s|) == 5 + |m| by {
      forall k | |a| <= k < |s| ensures s[k] != ';' {
        assert s[k] == rest[k - |a|];
      }
      LastSemicolonIs(s, 5, 5 + |m|, |s|);
    }
    assert s[0..5] == "data:";
    assert GreedyMatchesAt(s, 0);
    assert s[5..5 + |m|] == m;
  }

  /** For the data URLs `FileReader` writes, `data:<type>;base64,<payload>`,
      the lazy `/:(.*?);/` of `dataURLToBlob` (applied to the part before the
      first comma) and the greedy `/data:(.*);/` of `handleSelectAsset` both
      read the type exactly. */
  lemma MimeReadersAgree(m: string, d: string)
    requires NoLineBreak(m) && NoLineBreak(d)
    requires ';' !in m && ',' !in m && ';' !in d
    ensures DbService.LazyMime(JsText.FirstField("data:" + m + ";base64," + d, ',')) == Some(m)
    ensures GreedyMime("data:" + m + ";base64," + d) == Some(m)
  {
    var h := "data:" + m + ";base64";
    NoCommaInHeader(m);
    assert "data:" + m + ";base64," + d == h + [','] + d;
    JsText.FirstFieldOfJoin(h, d, ',');
    LazyMimeOfStandardHeader(m);
    GreedyMimeOfStandardUrl(m, d);
  }

  lemma NoCommaInHeader(m: string)
    requires ',' !in m
    ensures ',' !in "data:" + m + ";base64"
  {
    var h := "data:" + m + ";base64";
    forall i | 0 <= i < |h| ensures h[i] != ',' {
      if 5 <= i < 5 + |m| {
        assert h[i] == m[i - 5];
      }
    }
  }

  lemma LazyMimeOfStandardHeader(m: string)
    requires NoLineBreak(m) && ';' !in m
    ensures DbService.LazyMime("data:" + m + ";base64") == Some(m)
  {
    assert "data:" + m + ";base64" == "data:" + m + ";" + "base64";
    DbService.LazyMimeOfHeader(m, "base64");
  }

  lemma GreedyMimeOfStandardUrl(m: string, d: string)
    requires NoLineBreak(m) && NoLineBreak(d) && ';' !in d
    ensures GreedyMime("data:" + m + ";base64," + d) == Some(m)
  {
    var rest := "base64," + d;
    assert "data:" + m + ";base64," + d == "data:" + m + ";" + rest;
    forall j | 0 <= j < |rest| ensures !JsText.IsLineTerminator(rest[j]) && rest[j] != ';' {
      if j >= 7 {
        assert rest[j] == d[j - 7];
      }
    }
    GreedyMimeToLastSemicolon(m, rest);
  }

  /** Selecting a listed asset hands image-to-image the type the library
      stored for it (when that type is not empty). */
  lemma SelectedMimeOfListedAsset(r: DbService.StoredAsset)
    requires DbService.IsBlobType(r.imageBlob.mimeType) && r.imageBlob.mimeType != ""
    requires ';' !in r.imageBlob.mimeType && ',' !in r.imageBlob.mimeType
    ensures SelectedMime(DbService.ToAsset(r).imageDataUrl) == r.imageBlob.mimeType
  {
    var m := r.imageBlob.mimeType;
    var e := Base64.Encode(r.imageBlob.bytes);
    assert NoLineBreak(m) by {
      assert forall i :: 0 <= i < |m| ==> ' ' <= m[i] <= '~';
    }
    assert NoLineBreak(e) && ';' !in e by {
      assert forall i :: 0 <= i < |e| ==> Base64.IsLetter(e[i]) || e[i] == '=';
    }
    MimeReadersAgree(m, e);
  }

  /** A data URL whose type carries a parameter, `data:<m>;<p>;base64,<d>`:
      `dataURLToBlob` reads the type up to the first `;`, `handleSelectAsset`
      up to the last, parameter included. */
  lemma MimeReadersDisagreeOnParameters(m: string, p: string, d: string)
    requires NoLineBreak(m) && NoLineBreak(p) && NoLineBreak(d)
    requires ';' !in m && ',' !in m && ';' !in p && ',' !in p && ';' !in d
    ensures DbService.LazyMime(JsText.FirstField("data:" + m + ";" + p + ";base64," + d, ',')) == Some(m)
    ensures GreedyMime("data:" + m + ";" + p + ";base64," + d) == Some(m + ";" + p)
  {
    var mp := m + ";" + p;
    assert "data:" + m + ";" + p + ";base64," + d == "data:" + mp + ";base64," + d;
    assert NoLineBreak(mp) && ',' !in mp by {
      forall i | 0 <= i < |mp| ensures !JsText.IsLineTerminator(mp[i]) && mp[i] != ',' {
        if i < |m| {
          assert mp[i] == m[i];
        } else if i > |m| {
          assert mp[i] == p[i - |m| - 1];
        }
      }
    }
    var h := "data:" + mp + ";base64";
    NoCommaInHeader(mp);
    assert "data:" + mp + ";base64," + d == h + [','] + d;
    JsText.FirstFieldOfJoin(h, d, ',');
    assert h == "data:" + m + ";" + (p + ";base64");
    DbService.LazyMimeOfHeader(m, p + ";base64");
    GreedyMimeOfStandardUrl(mp, d);
  }

  // ---------------------------------------------------------------------
  // The gallery and the store
  // ---------------------------------------------------------------------

  /** Two assets show the same thing: same id, same prompt, and data URLs
      that decode to the same Blob. */
  predicate SameAsset(a: Asset, b: Asset)
  {
    a.id == b.id && a.prompt == b.prompt
    && DbService.ParseDataUrl(a.imageDataUrl) == DbService.ParseDataUrl(b.imageDataUrl)
  }

  /** Two asset lists show the same assets in the same order. */
  predicate AssetsAgree(xs: seq<Asset>, ys: seq<Asset>)
  {
    |xs| == |ys| && forall k :: 0 <= k < |xs| ==> SameAsset(xs[k], ys[k])
  }

  lemma AgreeReflexive(xs: seq<Asset>)
    ensures AssetsAgree(xs, xs)
  {
  }

  /** Filtering both lists by the same id keeps them in agreement. */
  lemma {:induction false} AgreeWithoutId(xs: seq<Asset>, ys: seq<Asset>, id: string)
    requires AssetsAgree(xs, ys)
    ensures AssetsAgree(DbService.AssetsWithoutId(xs, id), DbService.AssetsWithoutId(ys, id))
    decreases |xs|
  {
    if xs != [] {
      assert AssetsAgree(xs[1..], ys[1..]);
      AgreeWithoutId(xs[1..], ys[1..], id);
      DbService.WithoutIdCons(xs[0], xs[1..], id);
      DbService.WithoutIdCons(ys[0], ys[1..], id);
      assert xs == [xs[0]] + xs[1..] && ys == [ys[0]] + ys[1..];
    }
  }

  /** The asset `addAsset` resolves with shows what the library will list
      for the record it stored. */
  lemma AddedAssetIsListed(id: string, prompt: string, url: string, createdAt: int)
    requires DbService.ParseDataUrl(url).Ok?
    ensures SameAsset(Asset(id, prompt, url),
                      DbService.ToAsset(DbService.StoredAsset(id, prompt, DbService.ParseDataUrl(url).value, createdAt)))
  {
    DbService.ParsedBlobRoundTrips(url);
  }

  /** Putting the asset `addAsset` resolves with in front of the gallery
      keeps it in agreement with the store, when the new record is the
      newest. */
  lemma AgreeAfterNewestAdd(assets: seq<Asset>, rows: seq<DbService.StoredAsset>,
                            id: string, prompt: string, url: string, createdAt: int)
    requires AssetsAgree(assets, DbService.Listing(rows))
    requires forall x :: x in rows ==> x.createdAt < createdAt
    requires DbService.ParseDataUrl(url).Ok?
    ensures AssetsAgree([Asset(id, prompt, url)] + assets,
              DbService.Listing(DbService.InsertByKey(rows,
                DbService.StoredAsset(id, prompt, DbService.ParseDataUrl(url).value, createdAt))))
  {
    var stored := DbService.StoredAsset(id, prompt, DbService.ParseDataUrl(url).value, createdAt);
    DbService.ListingAfterNewestInsert(rows, stored);
    AddedAssetIsListed(id, prompt, url, createdAt);
    AgreeCons(Asset(id, prompt, url), DbService.ToAsset(stored), assets, DbService.Listing(rows));
  }

  lemma AgreeCons(a: Asset, b: Asset, xs: seq<Asset>, ys: seq<Asset>)
    requires SameAsset(a, b) && AssetsAgree(xs, ys)
    ensures AssetsAgree([a] + xs, [b] + ys)
  {
    var xs' := [a] + xs;
    var ys' := [b] + ys;
    forall k | 0 <= k < |xs'| ensures SameAsset(xs'[k], ys'[k]) {
      if k > 0 {
        assert xs'[k] == xs[k - 1] && ys'[k] == ys[k - 1];
      }
    }
  }

  // ---------------------------------------------------------------------
  // The page
  // ---------------------------------------------------------------------

  /** What the preview modal shows. */
  datatype Preview = Preview(src: string, prompt: string)

  /** The page's state at one moment, field by field. */
  datatype UiState = UiState(
    prompt: string,
    uploadedImage: Option<UploadedImage>,
    generatedImage: Option<string>,
    aspectRatio: AspectRatio,
    isLoading: bool,
    error: Option<string>,
    isSettingsOpen: bool,
    userApiKey: Option<string>,
    imageToEdit: Option<string>,
    isAssetLibraryOpen: bool,
    assets: seq<Asset>,
    imageToPreview: Option<Preview>,
    savedKey: Option<string>)

  /** Which generation `handleGenerateImage` runs: image-to-image when an
      image is uploaded, text-to-image with the aspect ratio otherwise. The
      outcome is the service's answer to exactly the request
      `GenerationRequest` describes, read as both image calls read a reply;
      without a key nothing is sent and the call rejects. */
  function Generation(prompt: string, uploaded: Option<UploadedImage>, ratio: AspectRatio,
                      userKey: Option<string>, envKey: Option<string>,
                      service: GeminiService.ImageService): (r: Settled<string>)
    ensures var q := GenerationRequest(prompt, uploaded, ratio, userKey, envKey);
            r == if q.Some? then GeminiService.ImageFromReply(service(q.value))
                 else Rejected(GeminiService.MissingKeyMessage)
  {
    if uploaded.Some? then GeminiService.ImageToImage(prompt, uploaded.value, userKey, envKey, service)
    else GeminiService.TextToImage(prompt, ratio, userKey, envKey, service)
  }

  /** The request that generation sends, when the key check lets it through. */
  function GenerationRequest(prompt: string, uploaded: Option<UploadedImage>, ratio: AspectRatio,
                             userKey: Option<string>, envKey: Option<string>): (q: Option<GeminiService.ImageRequest>)
    ensures q.Some? <==> GeminiService.ApiKey(userKey, envKey).Resolved?
    ensures q.Some? ==> q.value == if uploaded.Some? then GeminiService.ImageToImageRequest(prompt, uploaded.value)
                                   else GeminiService.TextToImageRequest(prompt, ratio)
  {
    if GeminiService.ApiKey(userKey, envKey).Rejected? then None
    else if uploaded.Some? then Some(GeminiService.ImageToImageRequest(prompt, uploaded.value))
    else Some(GeminiService.TextToImageRequest(prompt, ratio))
  }

  /** `addAsset` stores the generated image: the connection and request
      succeed, the URL parses, and the new id is not taken. */
  predicate SaveSucceeds(db: DbService.Result<DbService.Connection>, fault: Option<string>,
                         rows: seq<DbService.StoredAsset>, id: string, url: string)
  {
    DbService.WriteSucceeds(db, fault) && DbService.ParseDataUrl(url).Ok? && !DbService.HasId(rows, id)
  }

  /** The `App` component. `savedKey` is the `gemini_api_key` entry of
      `localStorage`; `envApiKey` is the key built into the bundle. */
  class Studio {
    var prompt: string
    var uploadedImage: Option<UploadedImage>
    var generatedImage: Option<string>
    var aspectRatio: AspectRatio
    var isLoading: bool
    var error: Option<string>
    var isSettingsOpen: bool
    var userApiKey: Option<string>
    var imageToEdit: Option<string>
    var isAssetLibraryOpen: bool
    var assets: seq<Asset>
    var imageToPreview: Option<Preview>
    var savedKey: Option<string>
    const envApiKey: Option<string>
    const library: DbService.AssetLibrary

    function State(): UiState
      reads this
    {
      UiState(prompt, uploadedImage, generatedImage, aspectRatio, isLoading, error, isSettingsOpen,
              userApiKey, imageToEdit, isAssetLibraryOpen, assets, imageToPreview, savedKey)
    }

    ghost predicate Valid()
      reads this, library
    {
      library.Valid()
    }

    /** The gallery shows what the store holds: the same assets, newest first. */
    ghost predicate Synced()
      reads this, library
    {
      AssetsAgree(assets, DbService.Listing(library.rows))
    }

    /** The initial state of every `useState` hook (App.tsx:17-28). */
    constructor (library: DbService.AssetLibrary, savedKey: Option<string>, envApiKey: Option<string>)
      requires library.Valid()
      ensures Valid() && this.library == library && this.envApiKey == envApiKey
      ensures State() == UiState("", None, None, Square, false, None, false, None, None, false, [], None, savedKey)
    {
      this.library := library;
      this.envApiKey := envApiKey;
      this.savedKey := savedKey;
      prompt := "";
      uploadedImage := None;
      generatedImage := None;
      aspectRatio := Square;
      isLoading := false;
      error := None;
      isSettingsOpen := false;
      userApiKey := None;
      imageToEdit := None;
      isAssetLibraryOpen := false;
      assets := [];
      imageToPreview := None;
    }

    /** The mount effect (App.tsx:30-44): adopt a non-empty saved key, then
        load the library, newest first; a failed load shows the load error
        and an empty gallery. */
    method Mount(reply: DbService.OpenReply, fault: Option<string>)
      requires Valid()
      modifies this, library
      ensures Valid() && library.rows == old(library.rows) && library.dbPromise.Some?
      ensures old(library.dbPromise).Some? ==> library.dbPromise == old(library.dbPromise)
      ensures old(library.dbPromise).None? ==> library.dbPromise == Some(DbService.OpenOutcome(reply))
      ensures var key := if savedKey.Some? && savedKey.value != "" then savedKey else old(userApiKey);
              if DbService.ListingSucceeds(library.dbPromise.value, fault) then
                State() == old(State()).(userApiKey := key, assets := DbService.Listing(library.rows))
              else
                State() == old(State()).(userApiKey := key, assets := [], error := Some(LoadError))
      ensures DbService.ListingSucceeds(library.dbPromise.value, fault) ==> Synced()
    {
      AdoptSavedKey();
      LoadAssets(reply, fault);
    }

    /** The saved key, when there is one and it is not empty, becomes the
        key in use (App.tsx:31-34). */
    method AdoptSavedKey()
      modifies this`userApiKey
      ensures State() == old(State()).(userApiKey := if savedKey.Some? && savedKey.value != "" then savedKey else old(userApiKey))
    {
      if savedKey.Some? && savedKey.value != "" {
        userApiKey := savedKey;
      }
    }

    /** The `getAllAssets` call of the mount effect (App.tsx:36-42): the
        listing becomes the gallery, or the load error is shown with an empty
        gallery. */
    method LoadAssets(reply: DbService.OpenReply, fault: Option<string>)
      requires Valid()
      modifies this`assets, this`error, library
      ensures Valid() && library.rows == old(library.rows) && library.dbPromise.Some?
      ensures old(library.dbPromise).Some? ==> library.dbPromise == old(library.dbPromise)
      ensures old(library.dbPromise).None? ==> library.dbPromise == Some(DbService.OpenOutcome(reply))
      ensures if DbService.ListingSucceeds(library.dbPromise.value, fault) then
                State() == old(State()).(assets := DbService.Listing(library.rows))
              else
                State() == old(State()).(assets := [], error := Some(LoadError))
      ensures DbService.ListingSucceeds(library.dbPromise.value, fault) ==> Synced()
    {
      ghost var before := State();
      var loaded := library.GetAllAssets(reply, fault);
      assert State() == before;
      match loaded {
        case Ok(list) =>
          assets := list;
          AgreeReflexive(list);
        case Err(_) =>
          error := Some(LoadError);
          assets := [];
      }
    }

    /** `handleSaveApiKey` (App.tsx:46-54): the trimmed key is used at once,
        and saved only when it is not empty. */
    method SaveApiKey(key: string)
      modifies this
      ensures var t := JsText.Trim(key);
              State() == old(State()).(userApiKey := Some(t), savedKey := if t != "" then Some(t) else None)
    {
      var trimmedKey := JsText.Trim(key);
      userApiKey := Some(trimmedKey);
      savedKey := if trimmedKey != "" then Some(trimmedKey) else None;
    }

    /** The opening steps of `handleServiceCall` (App.tsx:61-65). */
    method BeginServiceCall(clearsImage: Option<bool>)
      modifies this
      ensures State() == old(State()).(isLoading := true, error := None,
                                        generatedImage := if clearsImage == Some(false) then old(generatedImage) else None)
    {
      isLoading := true;
      error := None;
      if clearsImage != Some(false) {
        generatedImage := None;
      }
    }

    /** `handleGenerateInspiration` (App.tsx:78-80) through `handleServiceCall`
        with `clearsImage: false`: the prompt is replaced, or the error shown. */
    method GenerateInspiration(reply: Settled<Option<string>>)
      modifies this
      ensures var r := GeminiService.GenerateInspirationPrompt(old(userApiKey), envApiKey, reply);
              if r.Resolved? then State() == old(State()).(prompt := r.value, error := None, isLoading := false)
              else State() == old(State()).(error := Some(ErrorText(r.message)), isLoading := false)
    {
      var result := GeminiService.GenerateInspirationPrompt(userApiKey, envApiKey, reply);
      BeginServiceCall(Some(false));
      if result.Resolved? {
        prompt := result.value;
      } else {
        error := Some(ErrorText(result.message));
      }
      isLoading := false;
    }

    /** `handleOptimizePrompt` (App.tsx:82-84), likewise keeping the image. */
    method OptimizePrompt(reply: Settled<Option<string>>)
      modifies this
      ensures var r := GeminiService.OptimizePrompt(old(prompt), old(userApiKey), envApiKey, reply);
              if r.Resolved? then State() == old(State()).(prompt := r.value, error := None, isLoading := false)
              else State() == old(State()).(error := Some(ErrorText(r.message)), isLoading := false)
    {
      var result := GeminiService.OptimizePrompt(prompt, userApiKey, envApiKey, reply);
      BeginServiceCall(Some(false));
      match result {
        case Resolved(newPrompt) =>
          prompt := newPrompt;
        case Rejected(message) =>
          error := Some(ErrorText(message));
      }
      isLoading := false;
    }

    /** Saving a generated image to the library (App.tsx:97-109): the image
        goes to `addAsset` with the current prompt; the stored asset goes to
        the front of the gallery, or the failure to save is shown. */
    method SaveToLibrary(newImage: string, open: DbService.OpenReply,
                         now: string, random: string, createdAt: int, fault: Option<string>)
      requires Valid()
      modifies this, library
      ensures Valid() && library.dbPromise.Some?
      ensures old(library.dbPromise).Some? ==> library.dbPromise == old(library.dbPromise)
      ensures old(library.dbPromise).None? ==> library.dbPromise == Some(DbService.OpenOutcome(open))
      ensures SaveSucceeds(library.dbPromise.value, fault, old(library.rows), now + "-" + random, newImage) ==>
                && library.rows == DbService.InsertByKey(old(library.rows),
                     DbService.StoredAsset(now + "-" + random, old(prompt), DbService.ParseDataUrl(newImage).value, createdAt))
                && State() == old(State()).(assets := [Asset(now + "-" + random, old(prompt), newImage)] + old(assets))
      ensures !SaveSucceeds(library.dbPromise.value, fault, old(library.rows), now + "-" + random, newImage) ==>
                && library.rows == old(library.rows)
                && State() == old(State()).(error := Some(SaveError))
      ensures old(Synced()) && (forall x :: x in old(library.rows) ==> x.createdAt < createdAt) ==> Synced()
    {
      ghost var before := library.rows;
      var saved := library.AddAsset(prompt, newImage, open, now, random, createdAt, fault);
      if saved.Ok? {
        if old(Synced()) && forall x :: x in before ==> x.createdAt < createdAt {
          AgreeAfterNewestAdd(assets, before, now + "-" + random, prompt, newImage, createdAt);
        }
        assets := [saved.value] + assets;
      } else {
        error := Some(SaveError);
      }
    }

    /** The success callback of `handleGenerateImage` (App.tsx:95-110), run
        once the loading flag is down: the new image is shown and saved to
        the library as `SaveToLibrary` says. */
    method KeepGeneratedImage(newImage: string, open: DbService.OpenReply,
                              now: string, random: string, createdAt: int, fault: Option<string>)
      requires Valid()
      modifies this, library
      ensures Valid() && library.dbPromise.Some?
      ensures old(library.dbPromise).Some? ==> library.dbPromise == old(library.dbPromise)
      ensures old(library.dbPromise).None? ==> library.dbPromise == Some(DbService.OpenOutcome(open))
      ensures SaveSucceeds(library.dbPromise.value, fault, old(library.rows), now + "-" + random, newImage) ==>
                && library.rows == DbService.InsertByKey(old(library.rows),
                     DbService.StoredAsset(now + "-" + random, old(prompt), DbService.ParseDataUrl(newImage).value, createdAt))
                && State() == old(State()).(generatedImage := Some(newImage),
                     assets := [Asset(now + "-" + random, old(prompt), newImage)] + old(assets))
      ensures !SaveSucceeds(library.dbPromise.value, fault, old(library.rows), now + "-" + random, newImage) ==>
                && library.rows == old(library.rows)
                && State() == old(State()).(generatedImage := Some(newImage), error := Some(SaveError))
      ensures old(Synced()) && (forall x :: x in old(library.rows) ==> x.createdAt < createdAt) ==> Synced()
    {
      generatedImage := Some(newImage);
      SaveToLibrary(newImage, open, now, random, createdAt, fault);
    }

    /** `handleGenerateImage` (App.tsx:86-111). A blank prompt only shows an
        error. Otherwise the generation runs, image-to-image when an image is
        uploaded and text-to-image with the aspect ratio when not, and its
        image is kept as `KeepGeneratedImage` says; `sent` is the request
        that reaches the API. */
    method GenerateImage(service: GeminiService.ImageService, open: DbService.OpenReply,
                         now: string, random: string, createdAt: int, fault: Option<string>)
      returns (sent: Option<GeminiService.ImageRequest>)
      requires Valid()
      modifies this, library
      ensures Valid()
      ensures JsText.AllSpace(old(prompt)) ==>
                sent == None && State() == old(State()).(error := Some(EmptyPromptError))
                && library.rows == old(library.rows) && library.dbPromise == old(library.dbPromise)
      ensures !JsText.AllSpace(old(prompt)) ==>
                sent == GenerationRequest(old(prompt), old(uploadedImage), old(aspectRatio), old(userApiKey), envApiKey)
      ensures var g := Generation(old(prompt), old(uploadedImage), old(aspectRatio), old(userApiKey), envApiKey, service);
              !JsText.AllSpace(old(prompt)) && g.Rejected? ==>
                && library.rows == old(library.rows) && library.dbPromise == old(library.dbPromise)
                && State() == old(State()).(isLoading := false, generatedImage := None, error := Some(ErrorText(g.message)))
      ensures var g := Generation(old(prompt), old(uploadedImage), old(aspectRatio), old(userApiKey), envApiKey, service);
              var id := now + "-" + random;
              !JsText.AllSpace(old(prompt)) && g.Resolved? ==>
                library.dbPromise.Some? &&
                if SaveSucceeds(library.dbPromise.value, fault, old(library.rows), id, g.value) then
                  && library.rows == DbService.InsertByKey(old(library.rows),
                       DbService.StoredAsset(id, old(prompt), DbService.ParseDataUrl(g.value).value, createdAt))
                  && State() == old(State()).(isLoading := false, error := None, generatedImage := Some(g.value),
                       assets := [Asset(id, old(prompt), g.value)] + old(assets))
                else
                  && library.rows == old(library.rows)
                  && State() == old(State()).(isLoading := false, error := Some(SaveError), generatedImage := Some(g.value))
      ensures old(Synced()) && (forall x :: x in old(library.rows) ==> x.createdAt < createdAt) ==> Synced()
    {
      // `!prompt.trim()`: trimming leaves nothing exactly when the prompt is
      // all white space (`JsText.TrimSpec`).
      if JsText.AllSpace(prompt) {
        error := Some(EmptyPromptError);
        return None;
      }
      sent := GenerationRequest(prompt, uploadedImage, aspectRatio, userApiKey, envApiKey);
      var result := Generation(prompt, uploadedImage, aspectRatio, userApiKey, envApiKey, service);
      SettleGeneration(result, open, now, random, createdAt, fault);
    }

    /** `handleServiceCall` run for a generation (App.tsx:61-75, 95-110):
        the error and the old image are cleared; then a failure shows its
        message, or the new image is kept as `KeepGeneratedImage` says; the
        loading flag comes down either way. */
    method SettleGeneration(result: Settled<string>, open: DbService.OpenReply,
                            now: string, random: string, createdAt: int, fault: Option<string>)
      requires Valid()
      modifies this, library
      ensures Valid()
      ensures result.Rejected? ==>
                && library.rows == old(library.rows) && library.dbPromise == old(library.dbPromise)
                && State() == old(State()).(isLoading := false, generatedImage := None, error := Some(ErrorText(result.message)))
      ensures var id := now + "-" + random;
              result.Resolved? ==>
                library.dbPromise.Some? &&
                if SaveSucceeds(library.dbPromise.value, fault, old(library.rows), id, result.value) then
                  && library.rows == DbService.InsertByKey(old(library.rows),
                       DbService.StoredAsset(id, old(prompt), DbService.ParseDataUrl(result.value).value, createdAt))
                  && State() == old(State()).(isLoading := false, error := None, generatedImage := Some(result.value),
                       assets := [Asset(id, old(prompt), result.value)] + old(assets))
                else
                  && library.rows == old(library.rows)
                  && State() == old(State()).(isLoading := false, error := Some(SaveError), generatedImage := Some(result.value))
      ensures old(Synced()) && (forall x :: x in old(library.rows) ==> x.createdAt < createdAt) ==> Synced()
    {
      BeginServiceCall(None);
      if result.Rejected? {
        error := Some(ErrorText(result.message));
        isLoading := false;
        return;
      }
      isLoading := false;
      KeepGeneratedImage(result.value, open, now, random, createdAt, fault);
    }

    /** `handleImageUpload` (App.tsx:113-117). */
    method UploadImage(image: UploadedImage)
      modifies this
      ensures State() == old(State()).(uploadedImage := Some(image), generatedImage := None, error := None)
    {
      uploadedImage := Some(image);
      generatedImage := None;
      error := None;
    }

    /** `handleClearImage` (App.tsx:119-121). */
    method ClearImage()
      modifies this
      ensures State() == old(State()).(uploadedImage := None)
    {
      uploadedImage := None;
    }

    /** `handleOpenEditor` and `handleCloseEditor` (App.tsx:123-129). */
    method OpenEditor(image: string)
      modifies this
      ensures State() == old(State()).(imageToEdit := Some(image))
    {
      imageToEdit := Some(image);
    }

    method CloseEditor()
      modifies this
      ensures State() == old(State()).(imageToEdit := None)
    {
      imageToEdit := None;
    }

    /** `handleOpenPreview` (App.tsx:131-133): the generated image with the
        prompt as it stands now. */
    method OpenPreview(imageSrc: string)
      modifies this
      ensures State() == old(State()).(imageToPreview := Some(Preview(imageSrc, old(prompt))))
    {
      imageToPreview := Some(Preview(imageSrc, prompt));
    }

    /** `handleOpenAssetPreview` (App.tsx:135-137): an asset with its own prompt. */
    method OpenAssetPreview(asset: Asset)
      modifies this
      ensures State() == old(State()).(imageToPreview := Some(Preview(asset.imageDataUrl, asset.prompt)))
    {
      imageToPreview := Some(Preview(asset.imageDataUrl, asset.prompt));
    }

    /** `handleClosePreview` (App.tsx:139-141). */
    method ClosePreview()
      modifies this
      ensures State() == old(State()).(imageToPreview := None)
    {
      imageToPreview := None;
    }

    /** `handleSaveEdits` (App.tsx:144-153): the edited image becomes the
        uploaded image; the editor closes and the prompt is cleared. */
    method SaveEdits(editedImageDataUrl: string, mimeType: string)
      modifies this
      ensures State() == old(State()).(uploadedImage := Some(UploadedImage(editedImageDataUrl, mimeType)),
                                        generatedImage := None, imageToEdit := None, prompt := "", error := None)
    {
      uploadedImage := Some(UploadedImage(editedImageDataUrl, mimeType));
      generatedImage := None;
      imageToEdit := None;
      prompt := "";
      error := None;
    }

    /** `handleSelectAsset` (App.tsx:155-162): the asset's prompt and image
        become the input of the next generation; the library closes. */
    method SelectAsset(asset: Asset)
      modifies this
      ensures State() == old(State()).(prompt := asset.prompt,
                                        uploadedImage := Some(UploadedImage(asset.imageDataUrl, SelectedMime(asset.imageDataUrl))),
                                        generatedImage := None, isAssetLibraryOpen := false)
    {
      prompt := asset.prompt;
      var mimeType := SelectedMime(asset.imageDataUrl);
      uploadedImage := Some(UploadedImage(asset.imageDataUrl, mimeType));
      generatedImage := None;
      isAssetLibraryOpen := false;
    }

    /** `handleDeleteAsset` (App.tsx:164-173): the asset leaves the store and
        then the gallery, or the failure is shown and both stay as they were. */
    method DeleteAsset(assetId: string, open: DbService.OpenReply, fault: Option<string>)
      requires Valid()
      modifies this, library
      ensures Valid() && library.dbPromise.Some?
      ensures old(library.dbPromise).Some? ==> library.dbPromise == old(library.dbPromise)
      ensures old(library.dbPromise).None? ==> library.dbPromise == Some(DbService.OpenOutcome(open))
      ensures DbService.WriteSucceeds(library.dbPromise.value, fault) ==>
                && library.rows == DbService.RemoveId(old(library.rows), assetId)
                && State() == old(State()).(assets := DbService.AssetsWithoutId(old(assets), assetId))
      ensures !DbService.WriteSucceeds(library.dbPromise.value, fault) ==>
                library.rows == old(library.rows) && State() == old(State()).(error := Some(DeleteError))
      ensures old(Synced()) ==> Synced()
    {
      var deleted := library.DeleteAsset(assetId, open, fault);
      match deleted {
        case Ok(_) =>
          if old(Synced()) {
            DbService.ListingAfterRemove(old(library.rows), assetId);
            AgreeWithoutId(assets, DbService.Listing(old(library.rows)), assetId);
          }
          assets := DbService.AssetsWithoutId(assets, assetId);
        case Err(_) =>
          error := Some(DeleteError);
      }
    }

    /** The setters the page hands its children (App.tsx:187, 194, 207, 222,
        249, 263). */
    method SetPrompt(text: string)
      modifies this
      ensures State() == old(State()).(prompt := text)
    {
      prompt := text;
    }

    method SetAspectRatio(ratio: AspectRatio)
      modifies this
      ensures State() == old(State()).(aspectRatio := ratio)
    {
      aspectRatio := ratio;
    }

    method SetSettingsOpen(isOpen: bool)
      modifies this
      ensures State() == old(State()).(isSettingsOpen := isOpen)
    {
      isSettingsOpen := isOpen;
    }

    method SetAssetLibraryOpen(isOpen: bool)
      modifies this
      ensures State() == old(State()).(isAssetLibraryOpen := isOpen)
    {
      isAssetLibraryOpen := isOpen;
    }
  }

  /** Saving a key and visiting the page again: the trimmed key is in use
      at once; the next visit starts from the stored entry and, through the
      mount effect's first step, uses a non-blank key ahead of the built-in
      one, while a blank key leaves no entry and only the built-in key. */
  method SavedKeyTakesEffect(page: Studio, key: string) returns (next: Studio)
    requires page.Valid()
    modifies page
    ensures page.userApiKey == Some(JsText.Trim(key))
    ensures next.library == page.library && next.envApiKey == page.envApiKey
    ensures JsText.Trim(key) != "" ==>
              next.userApiKey == Some(JsText.Trim(key))
              && GeminiService.ApiKey(next.userApiKey, next.envApiKey) == Resolved(JsText.Trim(key))
    ensures JsText.Trim(key) == "" ==>
              next.userApiKey == None
              && GeminiService.ApiKey(next.userApiKey, next.envApiKey) == GeminiService.ApiKey(None, page.envApiKey)
  {
    page.SaveApiKey(key);
    next := new Studio(page.library, page.savedKey, page.envApiKey);
    next.AdoptSavedKey();
  }
}
