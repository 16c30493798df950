/** The admin list column that previews a quote's text. */
module AdminPreview {
  const PreviewLength: nat := 40
  const Ellipsis: char := '\U{2026}'

  /** `QuoteAdmin.short_text`: long text is cut to 40 characters and marked with an ellipsis. */
  function ShortText(text: string): (r: string)
    ensures |text| <= PreviewLength ==> r == text
    ensures |text| > PreviewLength ==> |r| == PreviewLength + 1 && r[PreviewLength] == Ellipsis
    ensures |r| <= PreviewLength + 1
    ensures var keep := if |text| < PreviewLength then |text| else PreviewLength;
      keep <= |r| && r[..keep] == text[..keep]
  {
    if |text| > PreviewLength then text[..PreviewLength] + [Ellipsis] else text
  }

  /**
   * The preview leaves a text alone exactly when it is short, or when it
   * already is a 41-character preview.
   */
  lemma ShortTextFixedPoints(text: string)
    ensures ShortText(text) == text
      <==> |text| <= PreviewLength || (|text| == PreviewLength + 1 && text[PreviewLength] == Ellipsis)
  {
    if |text| == PreviewLength + 1 && text[PreviewLength] == Ellipsis {
      assert text == text[..PreviewLength] + [Ellipsis];
    }
  }

  /** Previewing a preview changes nothing. */
  lemma ShortTextIdempotent(text: string)
    ensures ShortText(ShortText(text)) == ShortText(text)
  {
    ShortTextFixedPoints(ShortText(text));
  }
}
