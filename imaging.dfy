/**
  The image generator `generate_and_save_image`, with the image service, the
  download and the PNG re-encoding as an uninterpreted outcome.
*/
module Imaging {
  import opened Common

  const PromptHead := "A professional food photography of "
  const PromptTail := ", high quality, appetizing"

  /** The text-to-image prompt for a meal. */
  function ImagePrompt(meal: string): (prompt: string)
    ensures |prompt| == |PromptHead| + |meal| + |PromptTail|
    ensures prompt[..|PromptHead|] == PromptHead
    ensures prompt[|PromptHead| .. |PromptHead| + |meal|] == meal
    ensures prompt[|PromptHead| + |meal|..] == PromptTail
  {
    PromptHead + meal + PromptTail
  }

  /** Distinct meals are described by distinct prompts. */
  lemma ImagePromptInjective(a: string, b: string)
    requires ImagePrompt(a) == ImagePrompt(b)
    ensures a == b
  {
  }

  /** What one request came to: either some step raised (the service call,
      the lookup of the image locator, the download, or the decoding of the
      image), or the download answered with a status code and, when the
      bytes decoded, the base64 text of their PNG re-encoding. */
  datatype Delivery = Raised | Downloaded(status: int, encoded: string)

  /** The value `generate_and_save_image` returns: the encoded image on a
      200 answer, otherwise `None`. */
  function GenerateImage(d: Delivery): (image: Option<string>)
    ensures image.Some? <==> d.Downloaded? && d.status == 200
    ensures image.Some? ==> image.value == d.encoded
  {
    match d
    case Raised => None
    case Downloaded(status, encoded) => if status == 200 then Some(encoded) else None
  }

  /** Python truthiness of the returned value: `None` and `""` are the falsy
      values of an optional string. */
  predicate IsTruthy(image: Option<string>)
    ensures IsTruthy(image) <==> image != None && image != Some("")
  {
    image.Some? && image.value != ""
  }

  /** `if image:` holds exactly after a 200 answer with a non-empty
      encoding. */
  lemma TruthyExactlyOnSuccess(d: Delivery)
    ensures IsTruthy(GenerateImage(d)) <==> d.Downloaded? && d.status == 200 && d.encoded != ""
  {
  }
}
