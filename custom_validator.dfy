/**
 * The validator of the comma-separated list properties: a list is rejected only when
 * splitting it on commas yields no parts at all.
 */
module CustomValidator {

  import opened Wrappers
  import JavaText

  /** The explanation attached to an invalid value. */
  const ValidationResultDescription: string := "Input must be in the format: AA,AF,FG"

  /** NiFi's ValidationResult: the property, the value checked, the verdict and, if any, why. */
  datatype ValidationResult = ValidationResult(subject: string, input: string, valid: bool, explanation: Option<string>)

  /** `customPropertyValidator(subject, input, context)`. */
  function CustomPropertyValidator(subject: string, input: string): (r: ValidationResult)
    ensures r.subject == subject && r.input == input
    ensures !r.valid <==> |JavaText.Split(input)| == 0
    ensures r.explanation.Some? <==> !r.valid
    ensures r.explanation.Some? ==> r.explanation.value == ValidationResultDescription
  {
    var parts := JavaText.Split(input);
    if |parts| == 0 then ValidationResult(subject, input, false, Some(ValidationResultDescription))
    else ValidationResult(subject, input, true, None)
  }

  /**
   * Under Java's split rules a value is rejected exactly when it is a non-empty run of
   * commas: the empty string is accepted, and so is any value with another character.
   */
  lemma InvalidIffOnlyCommas(subject: string, input: string)
    ensures !CustomPropertyValidator(subject, input).valid <==> input != "" && JavaText.AllCommas(input)
    ensures CustomPropertyValidator(subject, "").valid
    ensures (exists i :: 0 <= i < |input| && input[i] != ',') ==> CustomPropertyValidator(subject, input).valid
  {
    JavaText.SplitEmptyIff(input);
    JavaText.SplitEmptyIff("");
  }

  /** A value that does not start with a comma is accepted. */
  lemma AcceptsLeadingField(subject: string, input: string)
    requires |input| > 0 && input[0] != ','
    ensures CustomPropertyValidator(subject, input).valid
  {
    InvalidIffOnlyCommas(subject, input);
  }

  /** The default property values pass validation; `","` does not. */
  lemma DefaultsAreValid(subject: string)
    ensures CustomPropertyValidator(subject, "AD,AF,BG").valid
    ensures CustomPropertyValidator(subject, "key1,key3").valid
    ensures !CustomPropertyValidator(subject, ",").valid
  {
    AcceptsLeadingField(subject, "AD,AF,BG");
    AcceptsLeadingField(subject, "key1,key3");
    InvalidIffOnlyCommas(subject, ",");
  }
}
