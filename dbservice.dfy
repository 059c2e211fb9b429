/**
 * The local asset library (services/dbService.ts): the data-URL to Blob
 * codec and an IndexedDB database `AssetLibraryDB` (version 1) holding one
 * object store `assets`, keyed by `id`, with an index `createdAt`.
 *
 * The object store is modelled by its records in the order of the
 * `createdAt` index. IndexedDB orders an index by its key and, among equal
 * keys, by primary key, so the records are kept strictly ascending by the
 * pair (createdAt, id); a cursor opened in direction 'prev' visits them
 * from the last to the first.
 */
module DbService {

  import opened Types
  import JsText
  import Base64

  const DbName: string := "AssetLibraryDB"
  const DbVersion: nat := 1
  const StoreName: string := "assets"
  const CreatedAtIndex: string := "createdAt"
  /** The `name` of the DOMException a request for an older version than the stored one meets. */
  const VersionError: string := "VersionError"
  /** The `name` of the DOMException a transaction aborts with when storage is full. */
  const QuotaExceeded: string := "QuotaExceededError"

  /** Why an operation of the library rejects. */
  datatype DbError =
    | InvalidDataUrl              // the `Error('Invalid data URL')` of dataURLToBlob
    | InvalidCharacter            // the DOMException `atob` throws
    | OpenError(reason: string)   // the open request's error
    | NotFound                    // no `assets` store (or no `createdAt` index)
    | ConstraintError             // `add` of a key the store already holds
    | RequestError(reason: string) // any other failed request or aborted transaction

  datatype Result<+T> = Ok(value: T) | Err(error: DbError)

  // ---------------------------------------------------------------------
  // Blobs and the data-URL codec
  // ---------------------------------------------------------------------

  /** A Blob: its bytes and its type. */
  datatype Blob = Blob(mimeType: string, bytes: seq<Base64.byte>)

  /** A type the Blob constructor keeps as it is: printable ASCII, no upper case. */
  predicate IsBlobType(t: string)
  {
    forall i :: 0 <= i < |t| ==> ' ' <= t[i] <= '~' && !('A' <= t[i] <= 'Z')
  }

  function AsciiLower(t: string): (r: string)
    ensures |r| == |t|
    ensures forall i :: 0 <= i < |t| ==> r[i] == (if 'A' <= t[i] <= 'Z' then (t[i] as int + 32) as char else t[i])
  {
    seq(|t|, i requires 0 <= i < |t| => if 'A' <= t[i] <= 'Z' then (t[i] as int + 32) as char else t[i])
  }

  /** The `type` the Blob constructor records for the type it is given: the
      empty string when a character lies outside U+0020..U+007E, otherwise
      the type in ASCII lower case. */
  function BlobType(t: string): string
  {
    if exists i :: 0 <= i < |t| && !(' ' <= t[i] <= '~') then "" else AsciiLower(t)
  }

  /** The recorded type is always one the constructor keeps; a type it keeps
      comes back unchanged; otherwise the type is emptied or lower-cased
      letter by letter, so `;` and `,` stay where they were. */
  lemma BlobTypeSpec(t: string)
    ensures IsBlobType(BlobType(t))
    ensures IsBlobType(t) ==> BlobType(t) == t
    ensures BlobType(t) == "" || |BlobType(t)| == |t|
    ensures forall i :: 0 <= i < |BlobType(t)| && (t[i] == ';' || t[i] == ',') ==> BlobType(t)[i] == t[i]
    ensures forall i :: 0 <= i < |BlobType(t)| && BlobType(t)[i] in ";," ==> BlobType(t)[i] == t[i]
  {
    if !exists i :: 0 <= i < |t| && !(' ' <= t[i] <= '~') {
      assert IsBlobType(t) ==> AsciiLower(t) == t;
    }
  }

  /** The position of the first `;` or line terminator at or after `i`
      (`|s|` when there is none): where a lazy `.*?` followed by `;` stops. */
  function StopAt(s: string, i: nat): (k: nat)
    requires i <= |s|
    ensures i <= k <= |s|
    ensures k < |s| ==> s[k] == ';' || JsText.IsLineTerminator(s[k])
    ensures forall j :: i <= j < k ==> s[j] != ';' && !JsText.IsLineTerminator(s[j])
    decreases |s| - i
  {
    if i == |s| || s[i] == ';' || JsText.IsLineTerminator(s[i]) then i else StopAt(s, i + 1)
  }

  /** The regular expression `/:(.*?);/` matches at position `j`. */
  predicate LazyMatchesAt(s: string, j: nat)
    requires j < |s|
  {
    s[j] == ':' && StopAt(s, j + 1) < |s| && s[StopAt(s, j + 1)] == ';'
  }

  /** The leftmost position at or after `i` where `/:(.*?);/` matches (`|s|`: none). */
  function LazyMatchFrom(s: string, i: nat): (j: nat)
    requires i <= |s|
    ensures i <= j <= |s|
    ensures j < |s| ==> LazyMatchesAt(s, j)
    ensures forall k :: i <= k < j ==> !LazyMatchesAt(s, k)
    decreases |s| - i
  {
    if i == |s| || LazyMatchesAt(s, i) then i else LazyMatchFrom(s, i + 1)
  }

  /** `s.match(/:(.*?);/)?.[1]`: the text after the leftmost `:` that is
      followed, on the same line, by a `;`, up to that `;`. */
  function LazyMime(s: string): (r: Option<string>)
    ensures r.Some? ==> ';' !in r.value
  {
    var j := LazyMatchFrom(s, 0);
    if j == |s| then None
    else
      var m := s[j + 1..StopAt(s, j + 1)];
      assert forall x :: x in m ==> x != ';';
      Some(m)
  }

  /** There is no match exactly when `/:(.*?);/` matches nowhere. */
  lemma LazyMimeSpec(s: string)
    ensures LazyMime(s).None? <==> forall k :: 0 <= k < |s| ==> !LazyMatchesAt(s, k)
  {
  }

  /** `dataUrl.split(',')[1]`, and JavaScript's `String(undefined)` when the
      URL holds no comma: the text `atob` receives. */
  function Payload(url: string): (p: string)
    ensures ',' !in p
  {
    match JsText.SecondField(url, ',')
    case None => "undefined"
    case Some(p) => p
  }

  /** What `dataURLToBlob` returns or throws: a header without `:…;` is
      refused before the payload is looked at, and a Blob read back always
      has a type the constructor keeps, with no `;` in it. */
  function ParseDataUrl(url: string): (r: Result<Blob>)
    ensures LazyMime(JsText.FirstField(url, ',')).None? ==> r == Err(InvalidDataUrl)
    ensures r.Ok? ==> IsBlobType(r.value.mimeType) && ';' !in r.value.mimeType
  {
    match LazyMime(JsText.FirstField(url, ','))
    case None => Err(InvalidDataUrl)
    case Some(mime) =>
      match Base64.ForgivingDecode(Payload(url))
      case None => Err(InvalidCharacter)
      case Some(bytes) =>
        BlobTypeSpec(mime);
        Ok(Blob(BlobType(mime), bytes))
  }

  /** `dataURLToBlob` (services/dbService.ts:8-22): the header check, `atob`,
      and the loop that copies each character code, from the last index down
      to 0, into a fresh `Uint8Array`. */
  method DataUrlToBlob(dataUrl: string) returns (r: Result<Blob>)
    ensures r == ParseDataUrl(dataUrl)
  {
    var head := JsText.FirstField(dataUrl, ',');
    var mimeMatch := LazyMime(head);
    if mimeMatch.None? {
      return Err(InvalidDataUrl);
    }
    var decoded := Base64.Atob(Payload(dataUrl));
    if decoded.None? {
      return Err(InvalidCharacter);
    }
    var bstr := decoded.value;
    var bytes := CopyCodes(bstr);
    CodesOfBinaryString(Base64.ForgivingDecode(Payload(dataUrl)).value, bytes);
    return Ok(Blob(BlobType(mimeMatch.value), bytes));
  }

  /** Copying the character codes of a binary string modulo 2^8 gives back
      the bytes it was made of. */
  lemma CodesOfBinaryString(b: seq<Base64.byte>, out: seq<Base64.byte>)
    requires |out| == |b|
    requires forall i :: 0 <= i < |b| ==> out[i] == Base64.BinaryString(b)[i] as int % 256
    ensures out == b
  {
    forall i | 0 <= i < |b| ensures out[i] == b[i] {
      assert Base64.BinaryString(b)[i] as int == b[i];
    }
  }

  /** The loop of `dataURLToBlob` (services/dbService.ts:16-20): each
      character code, from the last index down to 0, into a fresh
      `Uint8Array`, which stores a number modulo 2^8. */
  method CopyCodes(bstr: string) returns (bytes: seq<Base64.byte>)
    ensures |bytes| == |bstr|
    ensures forall i :: 0 <= i < |bstr| ==> bytes[i] == bstr[i] as int % 256
  {
    var n := |bstr|;
    var u8arr := new Base64.byte[n];
    while n > 0
      invariant 0 <= n <= |bstr| == u8arr.Length
      invariant forall i :: n <= i < |bstr| ==> u8arr[i] == bstr[i] as int % 256
    {
      n := n - 1;
      u8arr[n] := (bstr[n] as int) % 256;
    }
    bytes := u8arr[..];
  }

  /** `blobToDataURL`: what `FileReader.readAsDataURL` produces. Unless the
      type holds a comma, `dataURLToBlob` splits it back into the header
      `data:<type>;base64` and the base64 encoding of the bytes. */
  function BlobToDataUrl(blob: Blob): (url: string)
    ensures ',' !in blob.mimeType ==> JsText.FirstField(url, ',') == "data:" + blob.mimeType + ";base64"
    ensures ',' !in blob.mimeType ==> Payload(url) == Base64.Encode(blob.bytes)
  {
    var e := Base64.Encode(blob.bytes);
    var url := "data:" + blob.mimeType + ";base64," + e;
    if ',' in blob.mimeType then url
    else
      assert ',' !in e by {
        forall i | 0 <= i < |e| ensures e[i] != ',' {
          assert Base64.IsLetter(e[i]) || e[i] == '=';
        }
      }
      SerializedFields(blob.mimeType, e);
      url
  }

  /** The comma-separated fields of a data URL written by `BlobToDataUrl`. */
  lemma SerializedFields(m: string, e: string)
    requires ',' !in m && ',' !in e
    ensures JsText.FirstField("data:" + m + ";base64," + e, ',') == "data:" + m + ";base64"
    ensures Payload("data:" + m + ";base64," + e) == e
  {
    var h := "data:" + m + ";base64";
    var url := h + "," + e;
    assert "data:" + m + ";base64," + e == url;
    assert ',' !in h;
    assert JsText.FirstIndex(url, ',') == |h| by {
      assert forall i :: 0 <= i < |h| ==> url[i] == h[i];
      assert url[|h|] == ',';
    }
    assert url[|h| + 1..] == e;
    assert JsText.FirstField(e, ',') == e by {
      assert JsText.FirstIndex(e, ',') == |e|;
    }
  }

  /** In a header `data:<m>;base64` whose `m` holds no `;` and no line
      terminator, the lazy match takes exactly `m`. */
  lemma LazyMimeOfHeader(m: string, rest: string)
    requires ';' !in m && forall i :: 0 <= i < |m| ==> !JsText.IsLineTerminator(m[i])
    ensures LazyMime("data:" + m + ";" + rest) == Some(m)
  {
    var s := "data:" + m + ";" + rest;
    assert StopAt(s, 5) == 5 + |m| by {
      forall j | 5 <= j < 5 + |m| ensures s[j] != ';' && !JsText.IsLineTerminator(s[j]) {
        assert s[j] == m[j - 5];
      }
      StopAtPast(s, 5, 5 + |m|);
    }
    assert LazyMatchesAt(s, 4);
    assert forall k :: 0 <= k < 4 ==> s[k] != ':';
    assert LazyMatchFrom(s, 0) == 4;
    assert s[5..5 + |m|] == m;
  }

  lemma {:induction false} StopAtPast(s: string, i: nat, k: nat)
    requires i <= k < |s| && s[k] == ';'
    requires forall j :: i <= j < k ==> s[j] != ';' && !JsText.IsLineTerminator(s[j])
    ensures StopAt(s, i) == k
    decreases k - i
  {
    if i < k {
      StopAtPast(s, i + 1, k);
    }
  }

  /** Round trip (services/dbService.ts:8-33): a Blob whose type is one the
      Blob constructor keeps and holds no `;` and no `,` is written to a data
      URL and read back as the same Blob, type and bytes. */
  lemma ParseBlobToDataUrl(blob: Blob)
    requires IsBlobType(blob.mimeType) && ';' !in blob.mimeType && ',' !in blob.mimeType
    ensures ParseDataUrl(BlobToDataUrl(blob)) == Ok(blob)
  {
    var m := blob.mimeType;
    var e := Base64.Encode(blob.bytes);
    assert LazyMime("data:" + m + ";base64") == Some(m) by {
      forall i | 0 <= i < |m| ensures !JsText.IsLineTerminator(m[i]) {
        assert ' ' <= m[i] <= '~';
      }
      LazyMimeOfBase64Header(m);
    }
    Base64.DecodeEncode(blob.bytes);
    BlobTypeSpec(m);
  }

  lemma LazyMimeOfBase64Header(m: string)
    requires ';' !in m && forall i :: 0 <= i < |m| ==> !JsText.IsLineTerminator(m[i])
    ensures LazyMime("data:" + m + ";base64") == Some(m)
  {
    LazyMimeOfHeader(m, "base64");
    assert "data:" + m + ";base64" == "data:" + m + ";" + "base64";
  }

  /** A data URL that parses gives a Blob which survives `blobToDataURL`
      and a second parse unchanged: same MIME type, same bytes. */
  lemma ParsedBlobRoundTrips(url: string)
    requires ParseDataUrl(url).Ok?
    ensures ParseDataUrl(BlobToDataUrl(ParseDataUrl(url).value)) == ParseDataUrl(url)
  {
    var blob := ParseDataUrl(url).value;
    var head := JsText.FirstField(url, ',');
    var mime := LazyMime(head).value;
    assert blob.mimeType == BlobType(mime);
    assert ';' !in blob.mimeType && ',' !in blob.mimeType by {
      LazyMimeSpec(head);
      BlobTypeSpec(mime);
      forall i | 0 <= i < |blob.mimeType| ensures blob.mimeType[i] !in ";," {
        MimeWithinHeader(head, i);
        assert mime[i] !in ";,";
      }
    }
    BlobTypeSpec(mime);
    ParseBlobToDataUrl(blob);
  }

  /** Every character of the lazily matched MIME type comes from the header. */
  lemma MimeWithinHeader(h: string, i: nat)
    requires LazyMime(h).Some? && i < |LazyMime(h).value|
    ensures LazyMime(h).value[i] in h
  {
    var j := LazyMatchFrom(h, 0);
    assert LazyMime(h).value[i] == h[j + 1 + i];
  }

  // ---------------------------------------------------------------------
  // Records and the createdAt index order
  // ---------------------------------------------------------------------

  datatype StoredAsset = StoredAsset(id: string, prompt: string, imageBlob: Blob, createdAt: int)

  /** IndexedDB's order on string keys: code unit by code unit, a proper
      prefix first. */
  predicate StrLess(a: string, b: string)
    decreases |a|
  {
    if |a| == 0 then |b| > 0
    else |b| > 0 && (a[0] < b[0] || (a[0] == b[0] && StrLess(a[1..], b[1..])))
  }

  lemma {:induction false} StrLessIrreflexive(a: string)
    ensures !StrLess(a, a)
    decreases |a|
  {
    if |a| > 0 {
      StrLessIrreflexive(a[1..]);
    }
  }

  lemma {:induction false} StrLessTransitive(a: string, b: string, c: string)
    requires StrLess(a, b) && StrLess(b, c)
    ensures StrLess(a, c)
    decreases |a|
  {
    if |a| > 0 && a[0] == b[0] && b[0] == c[0] {
      StrLessTransitive(a[1..], b[1..], c[1..]);
    }
  }

  lemma {:induction false} StrLessTotal(a: string, b: string)
    ensures a == b || StrLess(a, b) || StrLess(b, a)
    decreases |a|
  {
    if |a| > 0 && |b| > 0 && a[0] == b[0] {
      StrLessTotal(a[1..], b[1..]);
      if a[1..] == b[1..] {
        assert a == [a[0]] + a[1..] && b == [b[0]] + b[1..];
      }
    }
  }

  /** The order of the `createdAt` index: by time, then by primary key. */
  predicate KeyLess(x: StoredAsset, y: StoredAsset)
  {
    x.createdAt < y.createdAt || (x.createdAt == y.createdAt && StrLess(x.id, y.id))
  }

  lemma KeyLessTransitive(x: StoredAsset, y: StoredAsset, z: StoredAsset)
    requires KeyLess(x, y) && KeyLess(y, z)
    ensures KeyLess(x, z)
  {
    if x.createdAt == y.createdAt == z.createdAt {
      StrLessTransitive(x.id, y.id, z.id);
    }
  }

  lemma KeyLessAsymmetric(x: StoredAsset, y: StoredAsset)
    ensures !(KeyLess(x, y) && KeyLess(y, x))
  {
    if KeyLess(x, y) && KeyLess(y, x) {
      StrLessTransitive(x.id, y.id, x.id);
      StrLessIrreflexive(x.id);
    }
  }

  /** Records with different ids are ordered one way or the other. */
  lemma KeyLessTotal(x: StoredAsset, y: StoredAsset)
    requires x.id != y.id
    ensures KeyLess(x, y) || KeyLess(y, x)
  {
    StrLessTotal(x.id, y.id);
  }

  /** Records in strictly ascending index order. */
  predicate IndexOrdered(rows: seq<StoredAsset>)
  {
    forall i, j :: 0 <= i < j < |rows| ==> KeyLess(rows[i], rows[j])
  }

  /** Records in strictly descending index order. */
  predicate NewestFirstOrdered(rows: seq<StoredAsset>)
  {
    forall i, j :: 0 <= i < j < |rows| ==> KeyLess(rows[j], rows[i])
  }

  /** No two records share a primary key. */
  predicate UniqueIds(rows: seq<StoredAsset>)
  {
    forall i, j :: 0 <= i < j < |rows| ==> rows[i].id != rows[j].id
  }

  predicate HasId(rows: seq<StoredAsset>, id: string)
  {
    exists i :: 0 <= i < |rows| && rows[i].id == id
  }

  /** Where `store.add` places a new record in the index. */
  function InsertByKey(rows: seq<StoredAsset>, r: StoredAsset): (out: seq<StoredAsset>)
    ensures |out| == |rows| + 1 && r in out
    decreases |rows|
  {
    if rows == [] then [r]
    else if KeyLess(r, rows[0]) then [r] + rows
    else [rows[0]] + InsertByKey(rows[1..], r)
  }

  /** The insertion adds exactly the one record to what the store holds. */
  lemma {:induction false} InsertByKeySpec(rows: seq<StoredAsset>, r: StoredAsset)
    ensures |InsertByKey(rows, r)| == |rows| + 1
    ensures multiset(InsertByKey(rows, r)) == multiset(rows) + multiset{r}
    ensures forall x :: x in InsertByKey(rows, r) <==> x in rows || x == r
    decreases |rows|
  {
    if rows != [] && !KeyLess(r, rows[0]) {
      InsertByKeySpec(rows[1..], r);
      assert rows == [rows[0]] + rows[1..];
    }
  }

  /** Inserting a record under a fresh id keeps the index strictly ordered
      and the primary keys distinct. */
  lemma {:induction false} InsertKeepsOrder(rows: seq<StoredAsset>, r: StoredAsset)
    requires IndexOrdered(rows) && UniqueIds(rows) && !HasId(rows, r.id)
    ensures IndexOrdered(InsertByKey(rows, r)) && UniqueIds(InsertByKey(rows, r))
    decreases |rows|
  {
    var out := InsertByKey(rows, r);
    if rows == [] {
    } else if KeyLess(r, rows[0]) {
      forall j | 0 <= j < |rows| ensures KeyLess(r, rows[j]) {
        if j > 0 {
          KeyLessTransitive(r, rows[0], rows[j]);
        }
      }
      assert forall j :: 0 < j < |out| ==> out[j] == rows[j - 1];
    } else {
      var tail := rows[1..];
      assert !HasId(tail, r.id) by {
        assert forall i :: 0 <= i < |tail| ==> tail[i] == rows[i + 1];
      }
      InsertKeepsOrder(tail, r);
      KeyLessTotal(rows[0], r);
      var t := InsertByKey(tail, r);
      InsertByKeySpec(tail, r);
      assert out == [rows[0]] + t;
      forall x | x in t ensures KeyLess(rows[0], x) && rows[0].id != x.id {
        if x != r {
          var i :| 0 <= i < |tail| && tail[i] == x;
          assert rows[i + 1] == x;
        }
      }
      ConsKeepsOrder(rows[0], t);
    }
  }

  /** A record whose key follows every stored key goes to the end of the index. */
  lemma {:induction false} InsertNewest(rows: seq<StoredAsset>, r: StoredAsset)
    requires forall x :: x in rows ==> KeyLess(x, r)
    ensures InsertByKey(rows, r) == rows + [r]
    decreases |rows|
  {
    if rows != [] {
      KeyLessAsymmetric(rows[0], r);
      InsertNewest(rows[1..], r);
      assert rows == [rows[0]] + rows[1..];
    }
  }

  /** What `store.delete(id)` leaves: every record but the one with that id. */
  function RemoveId(rows: seq<StoredAsset>, id: string): (out: seq<StoredAsset>)
    ensures forall x :: x in out <==> x in rows && x.id != id
    ensures !HasId(rows, id) ==> out == rows
    decreases |rows|
  {
    if rows == [] then []
    else if rows[0].id == id then RemoveId(rows[1..], id)
    else
      assert !HasId(rows, id) ==> !HasId(rows[1..], id) by {
        if HasId(rows[1..], id) {
          var i :| 0 <= i < |rows[1..]| && rows[1..][i].id == id;
          assert rows[i + 1].id == id;
        }
      }
      assert rows == [rows[0]] + rows[1..];
      [rows[0]] + RemoveId(rows[1..], id)
  }

  /** Removing records keeps the index ordered, the keys distinct. */
  lemma {:induction false} RemoveKeepsOrder(rows: seq<StoredAsset>, id: string)
    requires IndexOrdered(rows) && UniqueIds(rows)
    ensures IndexOrdered(RemoveId(rows, id)) && UniqueIds(RemoveId(rows, id))
    decreases |rows|
  {
    if rows != [] {
      var tail := rows[1..];
      assert IndexOrdered(tail) && UniqueIds(tail) by {
        assert forall i :: 0 <= i < |tail| ==> tail[i] == rows[i + 1];
      }
      RemoveKeepsOrder(tail, id);
      if rows[0].id != id {
        var out := RemoveId(rows, id);
        var t := RemoveId(tail, id);
        assert out == [rows[0]] + t;
        forall x | x in t ensures KeyLess(rows[0], x) && rows[0].id != x.id {
          var i :| 0 <= i < |tail| && tail[i] == x;
          assert rows[i + 1] == x;
        }
        ConsKeepsOrder(rows[0], t);
      }
    }
  }

  /** A record that precedes, and differs in id from, every record of an
      ordered sequence can stand in front of it. */
  lemma ConsKeepsOrder(x: StoredAsset, t: seq<StoredAsset>)
    requires IndexOrdered(t) && UniqueIds(t)
    requires forall y :: y in t ==> KeyLess(x, y) && x.id != y.id
    ensures IndexOrdered([x] + t) && UniqueIds([x] + t)
  {
    var out := [x] + t;
    forall i, j | 0 <= i < j < |out| ensures KeyLess(out[i], out[j]) && out[i].id != out[j].id {
      if i == 0 {
        assert out[j] == t[j - 1] && out[j] in t;
      } else {
        assert out[i] == t[i - 1] && out[j] == t[j - 1];
      }
    }
  }

  /** The records as a 'prev' cursor on the index visits them. */
  function NewestFirst(rows: seq<StoredAsset>): (out: seq<StoredAsset>)
    ensures |out| == |rows|
  {
    seq(|rows|, k requires 0 <= k < |rows| => rows[|rows| - 1 - k])
  }

  /** A stored record as the listing hands it out: its id and prompt, and
      its Blob re-encoded as a data URL. */
  function ToAsset(r: StoredAsset): (a: Asset)
    ensures a.id == r.id && a.prompt == r.prompt
  {
    Asset(r.id, r.prompt, BlobToDataUrl(r.imageBlob))
  }

  /** What `getAllAssets` resolves with. */
  function Listing(rows: seq<StoredAsset>): (out: seq<Asset>)
    ensures |out| == |rows|
  {
    seq(|rows|, k requires 0 <= k < |rows| => ToAsset(NewestFirst(rows)[k]))
  }

  /** Element `k` of the listing is the record the cursor visits `k`-th. */
  lemma ListingAt(rows: seq<StoredAsset>, k: nat)
    requires k < |rows|
    ensures Listing(rows)[k] == ToAsset(rows[|rows| - 1 - k])
  {
    assert NewestFirst(rows)[k] == rows[|rows| - 1 - k];
  }

  /** The listing holds every stored record exactly once, newest first:
      it is a permutation of the store and strictly descending in the index
      order. */
  lemma {:induction false} NewestFirstIsDescendingPermutation(rows: seq<StoredAsset>)
    requires IndexOrdered(rows)
    ensures NewestFirstOrdered(NewestFirst(rows))
    ensures multiset(NewestFirst(rows)) == multiset(rows)
    decreases |rows|
  {
    var out := NewestFirst(rows);
    if rows != [] {
      var front := rows[..|rows| - 1];
      assert IndexOrdered(front);
      NewestFirstIsDescendingPermutation(front);
      assert out == [rows[|rows| - 1]] + NewestFirst(front);
      assert rows == front + [rows[|rows| - 1]];
    }
  }

  /** A strictly descending arrangement of a set of records is unique, so
      "every record once, newest first" determines the listing completely. */
  lemma {:induction false} DescendingArrangementUnique(xs: seq<StoredAsset>, ys: seq<StoredAsset>)
    requires NewestFirstOrdered(xs) && NewestFirstOrdered(ys)
    requires multiset(xs) == multiset(ys)
    ensures xs == ys
    decreases |xs|
  {
    assert |xs| == |multiset(xs)| == |ys|;
    if xs != [] {
      SameNewest(xs, ys);
      var x := xs[0];
      assert xs == [x] + xs[1..] && ys == [x] + ys[1..];
      DropHead(xs);
      DropHead(ys);
      DescendingArrangementUnique(xs[1..], ys[1..]);
    }
  }

  /** Two descending arrangements of the same records start with the same one. */
  lemma SameNewest(xs: seq<StoredAsset>, ys: seq<StoredAsset>)
    requires NewestFirstOrdered(xs) && NewestFirstOrdered(ys)
    requires multiset(xs) == multiset(ys) && xs != [] && ys != []
    ensures xs[0] == ys[0]
  {
    assert xs[0] in multiset(ys) && ys[0] in multiset(xs);
    var i :| 0 <= i < |xs| && xs[i] == ys[0];
    var j :| 0 <= j < |ys| && ys[j] == xs[0];
    KeyLessAsymmetric(xs[0], ys[0]);
    if i > 0 && j > 0 {
      assert false;
    }
  }

  lemma DropHead(xs: seq<StoredAsset>)
    requires NewestFirstOrdered(xs) && xs != []
    ensures NewestFirstOrdered(xs[1..])
    ensures multiset(xs[1..]) == multiset(xs) - multiset{xs[0]}
  {
    assert xs == [xs[0]] + xs[1..];
  }

  /** Listing after an insert whose key is the newest: the new asset first,
      then the previous listing in its order. */
  lemma ListingAfterNewestInsert(rows: seq<StoredAsset>, r: StoredAsset)
    requires forall x :: x in rows ==> KeyLess(x, r)
    ensures Listing(InsertByKey(rows, r)) == [ToAsset(r)] + Listing(rows)
  {
    InsertNewest(rows, r);
    ListingAppend(rows, r);
  }

  /** Scenario: assets A, B, C stored in that order, at increasing times,
      are listed as [C, B, A]. */
  lemma ListsNewestFirst(a: StoredAsset, b: StoredAsset, c: StoredAsset)
    requires a.createdAt < b.createdAt < c.createdAt
    ensures Listing(InsertByKey(InsertByKey(InsertByKey([], a), b), c))
         == [ToAsset(c), ToAsset(b), ToAsset(a)]
  {
    var one := InsertByKey([], a);
    ListingAfterNewestInsert([], a);
    InsertNewest([], a);
    assert one == [a];
    var two := InsertByKey(one, b);
    ListingAfterNewestInsert(one, b);
    InsertNewest(one, b);
    assert two == [a, b];
    ListingAfterNewestInsert(two, c);
    assert Listing([]) == [];
  }

  /** Deleting by id filters the listing: the same assets in the same order,
      less those with that id. */
  lemma {:induction false} ListingAfterRemove(rows: seq<StoredAsset>, id: string)
    ensures Listing(RemoveId(rows, id)) == AssetsWithoutId(Listing(rows), id)
    decreases |rows|
  {
    if rows != [] {
      var front := rows[..|rows| - 1];
      var last := rows[|rows| - 1];
      assert rows == front + [last];
      ListingAppend(front, last);
      ListingAfterRemove(front, id);
      RemoveOfAppend(front, last, id);
      WithoutIdCons(ToAsset(last), Listing(front), id);
      if last.id != id {
        ListingAppend(RemoveId(front, id), last);
      } else {
        assert RemoveId(front, id) + [] == RemoveId(front, id);
      }
    }
  }

  /** Filtering by an id no asset has changes nothing. */
  lemma {:induction false} WithoutAbsentId(assets: seq<Asset>, id: string)
    requires forall k :: 0 <= k < |assets| ==> assets[k].id != id
    ensures AssetsWithoutId(assets, id) == assets
    decreases |assets|
  {
    if assets != [] {
      var rest := assets[1..];
      assert forall k :: 0 <= k < |rest| ==> rest[k].id != id by {
        forall k | 0 <= k < |rest| ensures rest[k].id != id { assert rest[k] == assets[k + 1]; }
      }
      WithoutAbsentId(rest, id);
      HeadTail(assets);
    }
  }

  /** The filter works piece by piece: the assets it keeps stay in their
      order, each once. */
  lemma {:induction false} WithoutIdAppend(xs: seq<Asset>, ys: seq<Asset>, id: string)
    ensures AssetsWithoutId(xs + ys, id) == AssetsWithoutId(xs, id) + AssetsWithoutId(ys, id)
    decreases |xs|
  {
    if xs != [] {
      var a, rest := xs[0], xs[1..];
      HeadTail(xs);
      AppendAssoc([a], rest, ys);
      WithoutIdCons(a, rest + ys, id);
      WithoutIdAppend(rest, ys, id);
      AppendAssoc(if a.id == id then [] else [a], AssetsWithoutId(rest, id), AssetsWithoutId(ys, id));
      WithoutIdCons(a, rest, id);
    } else {
      EmptyAppend(ys);
      EmptyAppend(AssetsWithoutId(ys, id));
    }
  }

  /** A non-empty sequence is its head followed by its tail. */
  lemma HeadTail<T>(s: seq<T>)
    requires s != []
    ensures [s[0]] + s[1..] == s
  {
  }

  /** One more element of a prefix. */
  lemma PrefixSnoc<T>(s: seq<T>, j: nat)
    requires j < |s|
    ensures s[..j + 1] == s[..j] + [s[j]]
  {
  }

  lemma AppendAssoc<T>(xs: seq<T>, ys: seq<T>, zs: seq<T>)
    ensures (xs + ys) + zs == xs + (ys + zs)
  {
  }

  lemma EmptyAppend<T>(xs: seq<T>)
    ensures [] + xs == xs
  {
  }

  lemma AppendEmpty<T>(xs: seq<T>)
    ensures xs + [] == xs
  {
  }

  /** Appending an element keeps the head and appends it to the tail. */
  lemma TailOfSnoc<T>(xs: seq<T>, y: T)
    requires xs != []
    ensures (xs + [y])[0] == xs[0] && (xs + [y])[1..] == xs[1..] + [y]
  {
  }

  lemma WithoutIdCons(a: Asset, tail: seq<Asset>, id: string)
    ensures AssetsWithoutId([a] + tail, id) == (if a.id == id then [] else [a]) + AssetsWithoutId(tail, id)
  {
    assert ([a] + tail)[1..] == tail;
  }

  lemma {:induction false} RemoveOfAppend(front: seq<StoredAsset>, last: StoredAsset, id: string)
    ensures RemoveId(front + [last], id) == RemoveId(front, id) + (if last.id == id then [] else [last])
    decreases |front|
  {
    var t := if last.id == id then [] else [last];
    if front != [] {
      TailOfSnoc(front, last);
      RemoveOfAppend(front[1..], last, id);
      if front[0].id != id {
        AppendAssoc([front[0]], RemoveId(front[1..], id), t);
      }
    } else {
      EmptyAppend([last]);
      EmptyAppend(t);
      TailOfSnoc([last], last);
      assert [last][1..] == [];
      AppendEmpty([last]);
    }
  }

  lemma ListingAppend(rows: seq<StoredAsset>, last: StoredAsset)
    ensures Listing(rows + [last]) == [ToAsset(last)] + Listing(rows)
  {
    var out := rows + [last];
    var l := Listing(out);
    var r := [ToAsset(last)] + Listing(rows);
    forall k | 0 <= k < |out| ensures l[k] == r[k] {
      if k == 0 {
        assert NewestFirst(out)[0] == last;
      } else {
        assert NewestFirst(out)[k] == rows[|rows| - k] == NewestFirst(rows)[k - 1];
      }
    }
    assert l == r;
  }

  /** `assets.filter(asset => asset.id !== id)`. */
  function AssetsWithoutId(assets: seq<Asset>, id: string): (out: seq<Asset>)
    ensures forall a :: a in out <==> a in assets && a.id != id
    decreases |assets|
  {
    if assets == [] then []
    else (if assets[0].id == id then [] else [assets[0]]) + AssetsWithoutId(assets[1..], id)
  }

  // ---------------------------------------------------------------------
  // Opening the database
  // ---------------------------------------------------------------------

  /** The object stores of a database, each with the names of its indexes. */
  type Schema = map<string, set<string>>

  /** How the environment answers `indexedDB.open(DB_NAME, DB_VERSION)`: the
      version and stores the database had, or the request's error. */
  datatype OpenReply = Opened(oldVersion: nat, stores: Schema) | OpenFailed(reason: string)

  datatype Connection = Connection(stores: Schema)

  /** The `onupgradeneeded` handler: create the `assets` store with its
      `createdAt` index only when the store is absent. */
  function Upgrade(stores: Schema): (r: Schema)
    ensures StoreName in r
    ensures StoreName in stores ==> r == stores
    ensures StoreName !in stores ==> r == stores[StoreName := {CreatedAtIndex}]
  {
    if StoreName in stores then stores else stores[StoreName := {CreatedAtIndex}]
  }

  /** What the promise built by `getDb` settles to. The upgrade handler runs
      only when the stored version is older than `DB_VERSION`; a stored
      version newer than it makes the request fail with a `VersionError`.
      An upgrade leaves the `assets` store in place, and no store is ever
      dropped. */
  function OpenOutcome(reply: OpenReply): (r: Result<Connection>)
    ensures r.Ok? <==> reply.Opened? && reply.oldVersion <= DbVersion
    ensures reply.Opened? && reply.oldVersion > DbVersion ==> r == Err(OpenError(VersionError))
    ensures reply.OpenFailed? ==> r == Err(OpenError(reply.reason))
    ensures reply.Opened? && reply.oldVersion < DbVersion ==> StoreName in r.value.stores
    ensures r.Ok? ==> reply.stores.Keys <= r.value.stores.Keys
  {
    match reply
    case Opened(v, stores) =>
      if v > DbVersion then Err(OpenError(VersionError))
      else Ok(Connection(if v < DbVersion then Upgrade(stores) else stores))
    case OpenFailed(reason) => Err(OpenError(reason))
  }

  /** A fresh database (version 0, no stores) opens with the `assets` store
      and its `createdAt` index; one that has them keeps its schema. */
  lemma FreshDatabaseSchema(existing: Schema)
    ensures OpenOutcome(Opened(0, map[])) == Ok(Connection(map[StoreName := {CreatedAtIndex}]))
    ensures StoreName in existing ==> OpenOutcome(Opened(0, existing)) == Ok(Connection(existing))
  {
  }

  /** A read of all assets succeeds: the connection opened, the store and
      its index exist, and the cursor request meets no error. */
  predicate ListingSucceeds(db: Result<Connection>, fault: Option<string>)
  {
    db.Ok? && StoreName in db.value.stores && CreatedAtIndex in db.value.stores[StoreName] && fault.None?
  }

  /** A read-write transaction on the store succeeds: the connection
      opened, the store exists, and neither its request nor its commit meets
      an error (`fault` is `TransactionFault` of the two). */
  predicate WriteSucceeds(db: Result<Connection>, fault: Option<string>)
  {
    db.Ok? && StoreName in db.value.stores && fault.None?
  }

  // ---------------------------------------------------------------------
  // When `addAsset` settles
  // ---------------------------------------------------------------------

  /** Whether a write's promise resolves, and whether its row is committed. */
  datatype WriteSettlement = WriteSettlement(resolves: bool, committed: bool)

  /** `addAsset` as written, given the `add` request's error and the
      commit's error: the promise settles in the request's own callbacks
      (services/dbService.ts:89-95), which run before the transaction
      commits, so an abort at commit time reaches nobody. */
  function AddSettlesAsWritten(request: Option<string>, commit: Option<string>): (s: WriteSettlement)
    ensures s.resolves <==> request.None?
    ensures s.committed <==> request.None? && commit.None?
  {
    WriteSettlement(request.None?, request.None? && commit.None?)
  }

  /** Storage that runs out at commit time: the promise resolves, so the
      page shows the asset, but the store never holds it. */
  lemma QuotaAbortAfterResolve()
    ensures var s := AddSettlesAsWritten(None, Some(QuotaExceeded)); s.resolves && !s.committed
  {
  }

  /** The error a promise settled by the transaction's `oncomplete` and
      `onabort` sees: the request's, or else the commit's. */
  function TransactionFault(request: Option<string>, commit: Option<string>): (f: Option<string>)
    ensures f.None? <==> request.None? && commit.None?
    ensures request.Some? ==> f == request
  {
    if request.Some? then request else commit
  }

  /** `addAsset` settled with its transaction, as the save-error message of
      App.tsx:108 expects: the store's outcome is the code's, and the promise
      resolves exactly when the row is committed. */
  function AddSettles(request: Option<string>, commit: Option<string>): (s: WriteSettlement)
    ensures s.resolves <==> s.committed
    ensures s.committed <==> request.None? && commit.None?
  {
    var ok := TransactionFault(request, commit).None?;
    WriteSettlement(ok, ok)
  }

  /** Settling with the transaction commits exactly what the code commits,
      and differs from it only when the request succeeds and the commit
      aborts. */
  lemma AddResolvesExactlyWhenCommitted(request: Option<string>, commit: Option<string>)
    ensures AddSettles(request, commit).committed == AddSettlesAsWritten(request, commit).committed
    ensures (AddSettlesAsWritten(request, commit).resolves && !AddSettles(request, commit).resolves)
              <==> (request.None? && commit.Some?)
  {
  }

  // ---------------------------------------------------------------------
  // The library
  // ---------------------------------------------------------------------

  /** The module-level `dbPromise` together with the records of the
      `assets` store. */
  class AssetLibrary {
    var dbPromise: Option<Result<Connection>>
    var rows: seq<StoredAsset>
    /** How many times `indexedDB.open` has been called. */
    ghost var opens: nat

    ghost predicate Valid()
      reads this
    {
      && IndexOrdered(rows)
      && UniqueIds(rows)
      && opens == (if dbPromise.Some? then 1 else 0)
    }

    /** The library as the page finds it: nothing opened yet, the persisted
        records in the store. */
    constructor (persisted: seq<StoredAsset>)
      requires IndexOrdered(persisted) && UniqueIds(persisted)
      ensures Valid() && dbPromise == None && rows == persisted
    {
      dbPromise := None;
      rows := persisted;
      opens := 0;
    }

    /** `getDb` (services/dbService.ts:45-70): the first call opens the
        database and keeps the promise; every later call returns that same
        promise, a rejected one included, and opens nothing. */
    method GetDb(reply: OpenReply) returns (db: Result<Connection>)
      requires Valid()
      modifies this`dbPromise, this`opens
      ensures Valid() && opens <= 1 && dbPromise == Some(db)
      ensures old(dbPromise).Some? ==> db == old(dbPromise).value && opens == old(opens)
      ensures old(dbPromise).None? ==> db == OpenOutcome(reply) && opens == 1
    {
      if dbPromise.Some? {
        return dbPromise.value;
      }
      opens := opens + 1;
      db := OpenOutcome(reply);
      dbPromise := Some(db);
    }

    /** `addAsset` (services/dbService.ts:72-97). The id is `now + "-" +
        random`, from the two clock and random renderings the caller passes;
        `createdAt` is the time `new Date()` reads; `fault` is the error the
        write transaction meets, `TransactionFault` of its `add` request and
        its commit (storage quota exhausted, for one). The promise settles
        with the transaction, as `AddSettles` says, rather than with the
        request alone as the code does (`AddSettlesAsWritten`). */
    method AddAsset(prompt: string, imageDataUrl: string, reply: OpenReply,
                    now: string, random: string, createdAt: int, fault: Option<string>)
      returns (r: Result<Asset>)
      requires Valid()
      modifies this
      ensures Valid() && dbPromise.Some? && opens <= 1
      ensures old(dbPromise).Some? ==> dbPromise == old(dbPromise)
      ensures old(dbPromise).None? ==> dbPromise == Some(OpenOutcome(reply))
      ensures dbPromise.value.Err? ==> r == Err(dbPromise.value.error)
      ensures dbPromise.value.Ok? && ParseDataUrl(imageDataUrl).Err? ==>
                r == Err(ParseDataUrl(imageDataUrl).error)
      ensures dbPromise.value.Ok? && ParseDataUrl(imageDataUrl).Ok? ==>
                if StoreName !in dbPromise.value.value.stores then r == Err(NotFound)
                else if HasId(old(rows), now + "-" + random) then r == Err(ConstraintError)
                else if fault.Some? then r == Err(RequestError(fault.value))
                else r == Ok(Asset(now + "-" + random, prompt, imageDataUrl))
      ensures r.Ok? <==> WriteSucceeds(dbPromise.value, fault) && ParseDataUrl(imageDataUrl).Ok?
                         && !HasId(old(rows), now + "-" + random)
      ensures r.Err? ==> rows == old(rows)
      ensures r.Ok? ==> rows == InsertByKey(old(rows),
                StoredAsset(now + "-" + random, prompt, ParseDataUrl(imageDataUrl).value, createdAt))
    {
      var db := GetDb(reply);
      if db.Err? {
        return Err(db.error);
      }
      var newId := now + "-" + random;
      var imageBlob := DataUrlToBlob(imageDataUrl);
      if imageBlob.Err? {
        return Err(imageBlob.error);
      }
      if StoreName !in db.value.stores {
        return Err(NotFound);
      }
      var storedAsset := StoredAsset(newId, prompt, imageBlob.value, createdAt);
      if exists i :: 0 <= i < |rows| && rows[i].id == newId {
        return Err(ConstraintError);
      }
      if fault.Some? {
        return Err(RequestError(fault.value));
      }
      InsertKeepsOrder(rows, storedAsset);
      rows := InsertByKey(rows, storedAsset);
      return Ok(Asset(newId, prompt, imageDataUrl));
    }

    /** The cursor walk of `getAllAssets`: from the last record of the index
        to the first, each record pushed as an asset. */
    method CollectNewestFirst() returns (assets: seq<Asset>)
      ensures assets == Listing(rows)
    {
      var records := rows;
      var n := |records|;
      assets := [];
      var i := n;
      while i > 0
        invariant 0 <= i <= n && |assets| == n - i
        invariant assets == Listing(records)[..n - i]
      {
        i := i - 1;
        ListingAt(records, n - 1 - i);
        PrefixSnoc(Listing(records), n - 1 - i);
        assets := assets + [ToAsset(records[i])];
      }
      assert Listing(records)[..n] == Listing(records);
    }

    /** `getAllAssets` (services/dbService.ts:99-146); `fault` is an error
        the key request may meet. */
    method GetAllAssets(reply: OpenReply, fault: Option<string>) returns (r: Result<seq<Asset>>)
      requires Valid()
      modifies this`dbPromise, this`opens
      ensures Valid() && dbPromise.Some? && rows == old(rows)
      ensures old(dbPromise).Some? ==> dbPromise == old(dbPromise)
      ensures old(dbPromise).None? ==> dbPromise == Some(OpenOutcome(reply))
      ensures dbPromise.value.Err? ==> r == Err(dbPromise.value.error)
      ensures dbPromise.value.Ok? ==>
                var stores := dbPromise.value.value.stores;
                if StoreName !in stores || CreatedAtIndex !in stores[StoreName] then r == Err(NotFound)
                else if fault.Some? then r == Err(RequestError(fault.value))
                else r == Ok(Listing(rows))
      ensures r.Ok? <==> ListingSucceeds(dbPromise.value, fault)
    {
      var db := GetDb(reply);
      if db.Err? {
        return Err(db.error);
      }
      if StoreName !in db.value.stores || CreatedAtIndex !in db.value.stores[StoreName] {
        return Err(NotFound);
      }
      if fault.Some? {
        return Err(RequestError(fault.value));
      }
      var keys := |rows|;
      if keys == 0 {
        return Ok([]);
      }
      var assets := CollectNewestFirst();
      return Ok(assets);
    }

    /** `deleteAsset` (services/dbService.ts:148-163); deleting an absent id
        succeeds and changes nothing. */
    method DeleteAsset(id: string, reply: OpenReply, fault: Option<string>) returns (r: Result<()>)
      requires Valid()
      modifies this
      ensures Valid() && dbPromise.Some?
      ensures old(dbPromise).Some? ==> dbPromise == old(dbPromise)
      ensures old(dbPromise).None? ==> dbPromise == Some(OpenOutcome(reply))
      ensures dbPromise.value.Err? ==> r == Err(dbPromise.value.error)
      ensures dbPromise.value.Ok? ==>
                if StoreName !in dbPromise.value.value.stores then r == Err(NotFound)
                else if fault.Some? then r == Err(RequestError(fault.value))
                else r == Ok(())
      ensures r.Ok? <==> WriteSucceeds(dbPromise.value, fault)
      ensures r.Ok? ==> rows == RemoveId(old(rows), id)
      ensures r.Err? ==> rows == old(rows)
    {
      var db := GetDb(reply);
      if db.Err? {
        return Err(db.error);
      }
      if StoreName !in db.value.stores {
        return Err(NotFound);
      }
      if fault.Some? {
        return Err(RequestError(fault.value));
      }
      RemoveKeepsOrder(rows, id);
      rows := RemoveId(rows, id);
      return Ok(());
    }
  }
}
