/**
 * The image editor (components/ImageEditorModal.tsx): the geometry of
 * `getEditedImage` and the component state that the crop, the sliders and
 * the reset and export buttons change.
 *
 * Numbers are exact reals. The trigonometry is not computed: the absolute
 * sine and cosine of the rotation are inputs. The canvas pixels and the PNG
 * encoding are not computed either: the data URL the canvas would produce
 * is an input.
 */
module ImageEditor {

  import opened Types

  const NoContextMessage: string := "Could not get canvas context"
  const OutputMimeType: string := "image/png"
  const DownloadName: string := "edited-image.png"

  const MinRotation: int := -180
  const MaxRotation: int := 180
  const MaxLevel: int := 200
  const DefaultLevel: int := 100

  type NonNegative = r: real | r >= 0.0
  type Positive = r: real | r > 0.0 witness 1.0

  /** `Math.round`: the nearest integer, halves rounded up. */
  function Round(x: real): (n: int)
    ensures n as real - 0.5 <= x < n as real + 0.5
  {
    (x + 0.5).Floor
  }

  /** A rectangle in pixels (a `PixelCrop`, or a `drawImage` rectangle). */
  datatype Rect = Rect(x: real, y: real, width: real, height: real)

  /** A crop in percent of the displayed image (a `Crop` with unit '%'). */
  datatype PercentCrop = PercentCrop(x: real, y: real, width: real, height: real)

  /** The `<img>`: its displayed size and its intrinsic size. */
  datatype ImageElement = ImageElement(width: Positive, height: Positive, naturalWidth: real, naturalHeight: real)

  /** The `ctx.filter` string `brightness(b%) contrast(c%)`, by its two numbers. */
  datatype Filter = Filter(brightness: real, contrast: real)

  /** What `getEditedImage` does to the canvas before encoding it. */
  datatype DrawPlan = DrawPlan(canvasWidth: int, canvasHeight: int, filter: Filter, rotation: real,
                               source: Rect, dest: Rect)

  /** The canvas plan and the `{ dataUrl, mimeType }` it returns. */
  datatype Edited = Edited(plan: DrawPlan, dataUrl: string, mimeType: string)

  // ---------------------------------------------------------------------
  // getEditedImage
  // ---------------------------------------------------------------------

  /** The side lengths, unrounded, of the box that holds a `w` by `h`
      rectangle turned by an angle with the given absolute sine and cosine. */
  function BoundingSize(w: real, h: real, absSin: NonNegative, absCos: NonNegative): (size: (real, real))
    ensures w >= 0.0 && h >= 0.0 ==> size.0 >= 0.0 && size.1 >= 0.0
    ensures absSin == 0.0 ==> size == (w * absCos, h * absCos)
    ensures absCos == 0.0 ==> size == (h * absSin, w * absSin)
  {
    (w * absCos + h * absSin, w * absSin + h * absCos)
  }

  /** Display-to-native scaling of the crop: `crop * naturalSize / size`, in
      x and y independently. */
  function SourceRect(image: ImageElement, crop: Rect): (r: Rect)
    ensures r.x * image.width == crop.x * image.naturalWidth
    ensures r.y * image.height == crop.y * image.naturalHeight
    ensures r.width * image.width == crop.width * image.naturalWidth
    ensures r.height * image.height == crop.height * image.naturalHeight
  {
    var scaleX := image.naturalWidth / image.width;
    var scaleY := image.naturalHeight / image.height;
    Rect(crop.x * scaleX, crop.y * scaleY, crop.width * scaleX, crop.height * scaleY)
  }

  /** `getEditedImage` (components/ImageEditorModal.tsx:18-63). `hasContext`
      says whether `getContext('2d')` returned a context; `encoded` is the
      data URL `canvas.toDataURL('image/png')` returns. */
  function GetEditedImage(image: ImageElement, crop: Rect, rotation: real, brightness: real, contrast: real,
                          hasContext: bool, absSin: NonNegative, absCos: NonNegative, encoded: string)
    : (r: Settled<Edited>)
    ensures hasContext <==> r.Resolved?
    ensures r.Rejected? ==> r.message == NoContextMessage
    ensures r.Resolved? ==>
      var plan := r.value.plan;
      && plan.source == SourceRect(image, crop)
      && plan.dest == Rect(0.0, 0.0, crop.width, crop.height)
      && (plan.canvasWidth as real - 0.5 <= crop.width * absCos + crop.height * absSin < plan.canvasWidth as real + 0.5)
      && (plan.canvasHeight as real - 0.5 <= crop.width * absSin + crop.height * absCos < plan.canvasHeight as real + 0.5)
      && plan.filter == Filter(brightness, contrast)
      && plan.rotation == rotation
      && r.value.dataUrl == encoded
      && r.value.mimeType == OutputMimeType
  {
    if !hasContext then Rejected(NoContextMessage)
    else
      var (newWidth, newHeight) := BoundingSize(crop.width, crop.height, absSin, absCos);
      var plan := DrawPlan(Round(newWidth), Round(newHeight), Filter(brightness, contrast), rotation,
                           SourceRect(image, crop), Rect(0.0, 0.0, crop.width, crop.height));
      Resolved(Edited(plan, encoded, OutputMimeType))
  }

  /** Without a rotation (sine 0, cosine 1) the canvas has the crop's size,
      rounded. */
  lemma UnrotatedCanvas(image: ImageElement, crop: Rect, brightness: real, contrast: real, encoded: string)
    ensures var r := GetEditedImage(image, crop, 0.0, brightness, contrast, true, 0.0, 1.0, encoded);
      r.Resolved? && r.value.plan.canvasWidth == Round(crop.width) && r.value.plan.canvasHeight == Round(crop.height)
  {
    assert crop.width * 1.0 + crop.height * 0.0 == crop.width;
    assert crop.width * 0.0 + crop.height * 1.0 == crop.height;
  }

  /** A quarter turn (sine 1, cosine 0) swaps the canvas's width and height. */
  lemma QuarterTurnCanvas(image: ImageElement, crop: Rect, rotation: real, brightness: real, contrast: real,
                          encoded: string)
    ensures var r := GetEditedImage(image, crop, rotation, brightness, contrast, true, 1.0, 0.0, encoded);
      r.Resolved? && r.value.plan.canvasWidth == Round(crop.height) && r.value.plan.canvasHeight == Round(crop.width)
  {
    assert crop.width * 0.0 + crop.height * 1.0 == crop.height;
    assert crop.width * 1.0 + crop.height * 0.0 == crop.width;
  }

  /** Exchanging sine and cosine (turning by the complementary angle) swaps
      the canvas's width and height. */
  lemma ComplementaryTurnSwapsCanvas(image: ImageElement, crop: Rect, rotation: real, rotation': real,
                                     brightness: real, contrast: real, absSin: NonNegative, absCos: NonNegative,
                                     encoded: string)
    ensures var r := GetEditedImage(image, crop, rotation, brightness, contrast, true, absSin, absCos, encoded);
      var r' := GetEditedImage(image, crop, rotation', brightness, contrast, true, absCos, absSin, encoded);
      r.Resolved? && r'.Resolved?
      && r'.value.plan.canvasWidth == r.value.plan.canvasHeight
      && r'.value.plan.canvasHeight == r.value.plan.canvasWidth
  {
  }

  /** Scenario: a 100 by 50 crop turned by 45 degrees (sine and cosine both
      within [0.7071, 0.7072]) needs a 106 by 106 canvas. */
  lemma FortyFiveDegreeCanvas(image: ImageElement, brightness: real, contrast: real, absSin: NonNegative,
                              absCos: NonNegative, encoded: string)
    requires 0.7071 <= absSin <= 0.7072 && 0.7071 <= absCos <= 0.7072
    ensures var r := GetEditedImage(image, Rect(0.0, 0.0, 100.0, 50.0), 45.0, brightness, contrast, true,
                                    absSin, absCos, encoded);
      r.Resolved? && r.value.plan.canvasWidth == 106 && r.value.plan.canvasHeight == 106
  {
    var w := 100.0 * absCos + 50.0 * absSin;
    var h := 100.0 * absSin + 50.0 * absCos;
    assert 106.065 <= w <= 106.08 && 106.065 <= h <= 106.08;
    assert Round(w) == 106 && Round(h) == 106;
  }

  /** Scenario: at half the intrinsic size, the crop {10, 10, 50, 50} samples
      {20, 20, 100, 100} of the original image. */
  lemma HalfDisplaySampling()
    ensures SourceRect(ImageElement(100.0, 80.0, 200.0, 160.0), Rect(10.0, 10.0, 50.0, 50.0))
         == Rect(20.0, 20.0, 100.0, 100.0)
  {
  }

  /** The source rectangle stays inside the image whenever the crop stays
      inside its display. */
  lemma SourceWithinImage(image: ImageElement, crop: Rect)
    requires image.naturalWidth >= 0.0 && image.naturalHeight >= 0.0
    requires 0.0 <= crop.x && 0.0 <= crop.width && crop.x + crop.width <= image.width
    requires 0.0 <= crop.y && 0.0 <= crop.height && crop.y + crop.height <= image.height
    ensures var s := SourceRect(image, crop);
      0.0 <= s.x && 0.0 <= s.width && s.x + s.width <= image.naturalWidth
      && 0.0 <= s.y && 0.0 <= s.height && s.y + s.height <= image.naturalHeight
  {
    ScaledSpan(crop.x, crop.width, image.width, image.naturalWidth);
    ScaledSpan(crop.y, crop.height, image.height, image.naturalHeight);
  }

  /** A span `[a, a + b]` inside `[0, size]`, scaled by `natural / size`,
      lies inside `[0, natural]`. */
  lemma ScaledSpan(a: real, b: real, size: Positive, natural: real)
    requires natural >= 0.0 && 0.0 <= a && 0.0 <= b && a + b <= size
    ensures 0.0 <= a * (natural / size) && 0.0 <= b * (natural / size)
    ensures a * (natural / size) + b * (natural / size) <= natural
  {
    var scale := natural / size;
    assert scale >= 0.0;
    assert size * scale == natural;
    assert a * scale + b * scale == (a + b) * scale;
    assert (a + b) * scale <= size * scale;
  }

  // ---------------------------------------------------------------------
  // Crop conversion
  // ---------------------------------------------------------------------

  /** The completed crop `onImageLoad` derives from the percent crop. */
  function ToPixels(image: ImageElement, c: PercentCrop): (r: Rect)
    ensures r.x * 100.0 == image.width * c.x && r.width * 100.0 == image.width * c.width
    ensures r.y * 100.0 == image.height * c.y && r.height * 100.0 == image.height * c.height
  {
    Rect((image.width * c.x) / 100.0, (image.height * c.y) / 100.0,
         (image.width * c.width) / 100.0, (image.height * c.height) / 100.0)
  }

  /** A pixel crop as percentages of the displayed size. */
  function ToPercent(image: ImageElement, r: Rect): PercentCrop
  {
    PercentCrop(r.x * 100.0 / image.width, r.y * 100.0 / image.height,
                r.width * 100.0 / image.width, r.height * 100.0 / image.height)
  }

  /** The conversion loses nothing: percent to pixels and back, and pixels
      to percent and back, are identities. */
  lemma PercentPixelRoundTrip(image: ImageElement, c: PercentCrop, r: Rect)
    ensures ToPercent(image, ToPixels(image, c)) == c
    ensures ToPixels(image, ToPercent(image, r)) == r
  {
  }

  /** Percent crops within [0, 100] give pixel crops within the display. */
  lemma PixelsWithinDisplay(image: ImageElement, c: PercentCrop)
    requires 0.0 <= c.x && 0.0 <= c.width && c.x + c.width <= 100.0
    requires 0.0 <= c.y && 0.0 <= c.height && c.y + c.height <= 100.0
    ensures var r := ToPixels(image, c);
      0.0 <= r.x && 0.0 <= r.width && r.x + r.width <= image.width
      && 0.0 <= r.y && 0.0 <= r.height && r.y + r.height <= image.height
  {
    assert image.width * (c.x + c.width) <= image.width * 100.0;
    assert image.height * (c.y + c.height) <= image.height * 100.0;
  }

  // ---------------------------------------------------------------------
  // The component
  // ---------------------------------------------------------------------

  datatype Action = Save | Download

  /** What `handleEdit` does beyond the component: nothing, hand the image to
      `onSave`, click a download link, or throw. */
  datatype EditEffect =
    | NoEffect
    | Saved(dataUrl: string, mimeType: string)
    | Downloaded(fileName: string, href: string)
    | Threw(message: string)

  /** A value a range input reports: its number clamped to the input's bounds. */
  function Clamp(v: int, lo: int, hi: int): (r: int)
    requires lo <= hi
    ensures lo <= r <= hi
    ensures lo <= v <= hi ==> r == v
    ensures v < lo ==> r == lo
    ensures v > hi ==> r == hi
  {
    if v < lo then lo else if v > hi then hi else v
  }

  class EditorModal {
    var crop: Option<PercentCrop>
    var completedCrop: Option<Rect>
    var rotation: int
    var brightness: int
    var contrast: int
    /** `imgRef.current`. */
    var image: Option<ImageElement>

    /** The sliders' bounds hold. */
    ghost predicate Valid()
      reads this
    {
      && MinRotation <= rotation <= MaxRotation
      && 0 <= brightness <= MaxLevel
      && 0 <= contrast <= MaxLevel
    }

    /** The initial state (components/ImageEditorModal.tsx:67-72). */
    constructor ()
      ensures Valid()
      ensures crop == None && completedCrop == None && image == None
      ensures rotation == 0 && brightness == DefaultLevel && contrast == DefaultLevel
    {
      crop := None;
      completedCrop := None;
      rotation := 0;
      brightness := DefaultLevel;
      contrast := DefaultLevel;
      image := None;
    }

    /** React attaches the rendered `<img>` to `imgRef`. */
    method AttachImage(img: ImageElement)
      requires Valid()
      modifies this`image
      ensures Valid() && image == Some(img)
    {
      image := Some(img);
    }

    /** `onImageLoad` (components/ImageEditorModal.tsx:74-90); `initialCrop`
        is the centred square percent crop `centerCrop(makeAspectCrop(..))`
        computes. */
    method OnImageLoad(img: ImageElement, initialCrop: PercentCrop)
      requires Valid()
      modifies this`crop, this`completedCrop
      ensures Valid() && crop == Some(initialCrop)
      ensures completedCrop == Some(ToPixels(img, initialCrop))
    {
      crop := Some(initialCrop);
      completedCrop := Some(ToPixels(img, initialCrop));
    }

    /** ReactCrop's `onChange` and `onComplete` (components/ImageEditorModal.tsx:145-146). */
    method OnCropChange(percentCrop: PercentCrop)
      requires Valid()
      modifies this`crop
      ensures Valid() && crop == Some(percentCrop)
    {
      crop := Some(percentCrop);
    }

    method OnCropComplete(c: Rect)
      requires Valid()
      modifies this`completedCrop
      ensures Valid() && completedCrop == Some(c)
    {
      completedCrop := Some(c);
    }

    /** The three sliders (components/ImageEditorModal.tsx:166, 170, 174). */
    method SetRotation(v: int)
      requires Valid()
      modifies this`rotation
      ensures Valid() && rotation == Clamp(v, MinRotation, MaxRotation)
    {
      rotation := Clamp(v, MinRotation, MaxRotation);
    }

    method SetBrightness(v: int)
      requires Valid()
      modifies this`brightness
      ensures Valid() && brightness == Clamp(v, 0, MaxLevel)
    {
      brightness := Clamp(v, 0, MaxLevel);
    }

    method SetContrast(v: int)
      requires Valid()
      modifies this`contrast
      ensures Valid() && contrast == Clamp(v, 0, MaxLevel)
    {
      contrast := Clamp(v, 0, MaxLevel);
    }

    /** `handleReset` (components/ImageEditorModal.tsx:114-121). */
    method HandleReset(initialCrop: PercentCrop)
      modifies this
      ensures Valid()
      ensures rotation == 0 && brightness == DefaultLevel && contrast == DefaultLevel
      ensures image == old(image)
      ensures old(image).Some? ==> crop == Some(initialCrop) && completedCrop == Some(ToPixels(old(image).value, initialCrop))
      ensures old(image).None? ==> crop == old(crop) && completedCrop == old(completedCrop)
    {
      rotation := 0;
      brightness := DefaultLevel;
      contrast := DefaultLevel;
      if image.Some? {
        OnImageLoad(image.value, initialCrop);
      }
    }

    /** `handleEdit` (components/ImageEditorModal.tsx:92-112). The canvas
        inputs of `getEditedImage` are parameters as there. */
    method HandleEdit(action: Action, hasContext: bool, absSin: NonNegative, absCos: NonNegative, encoded: string)
      returns (effect: EditEffect)
      ensures completedCrop.None? || image.None? ==> effect == NoEffect
      ensures completedCrop.Some? && image.Some? && !hasContext ==> effect == Threw(NoContextMessage)
      ensures completedCrop.Some? && image.Some? && hasContext ==>
                effect == (if action == Save then Saved(encoded, OutputMimeType) else Downloaded(DownloadName, encoded))
      ensures effect.Saved? ==> action == Save && effect.mimeType == OutputMimeType
    {
      if completedCrop.None? || image.None? {
        return NoEffect;
      }
      var result := GetEditedImage(image.value, completedCrop.value, rotation as real, brightness as real,
                                   contrast as real, hasContext, absSin, absCos, encoded);
      if result.Rejected? {
        return Threw(result.message);
      }
      var edited := result.value;
      if action == Save {
        effect := Saved(edited.dataUrl, edited.mimeType);
      } else {
        effect := Downloaded(DownloadName, edited.dataUrl);
      }
    }
  }

  /** Scenario: a freshly opened editor has nothing to export, and after its
      image loads a save hands a PNG to `onSave`. */
  method EditorSession(img: ImageElement, initialCrop: PercentCrop, encoded: string) returns (before: EditEffect, after: EditEffect)
    ensures before == NoEffect
    ensures after == Saved(encoded, OutputMimeType)
  {
    var editor := new EditorModal();
    before := editor.HandleEdit(Save, true, 0.0, 1.0, encoded);
    editor.AttachImage(img);
    editor.OnImageLoad(img, initialCrop);
    after := editor.HandleEdit(Save, true, 0.0, 1.0, encoded);
  }
}
