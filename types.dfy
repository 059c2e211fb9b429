/**
 * The shared entities of the studio (types.ts) and the value shapes the
 * other modules exchange: an optional value and the settled state of a
 * JavaScript promise.
 */
module Types {

  datatype Option<+T> = None | Some(value: T)

  /** How a promise (or a call that may throw) settles. A thrown error is
      represented by its `message` property; the empty message stands for
      an error object whose message is missing or empty. */
  datatype Settled<+T> = Resolved(value: T) | Rejected(message: string)

  /** The ten aspect ratios the text-to-image request accepts (types.ts:1). */
  datatype AspectRatio =
    | Square       // "1:1"
    | Wide16x9     // "16:9"
    | Tall9x16     // "9:16"
    | Landscape4x3 // "4:3"
    | Portrait3x4  // "3:4"
    | Landscape3x2 // "3:2"
    | Portrait2x3  // "2:3"
    | Landscape5x4 // "5:4"
    | Portrait4x5  // "4:5"
    | Cinema21x9   // "21:9"

  /** The ratio as the literal string the API receives. */
  function RatioText(r: AspectRatio): string
  {
    match r
    case Square => "1:1"
    case Wide16x9 => "16:9"
    case Tall9x16 => "9:16"
    case Landscape4x3 => "4:3"
    case Portrait3x4 => "3:4"
    case Landscape3x2 => "3:2"
    case Portrait2x3 => "2:3"
    case Landscape5x4 => "5:4"
    case Portrait4x5 => "4:5"
    case Cinema21x9 => "21:9"
  }

  /** An asset as the UI sees it (types.ts:3-7). */
  datatype Asset = Asset(id: string, prompt: string, imageDataUrl: string)

  /** An image handed to image-to-image generation (App.tsx:18). */
  datatype UploadedImage = UploadedImage(dataUrl: string, mimeType: string)
}
