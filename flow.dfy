/**
 * What the four processors share: a flow file as the processors see it, the outcome of
 * one onTrigger call, the routing of the try/catch around each transform (only a
 * NullPointerException is caught and sends the original flow file to failure), the two
 * ways a record's text is read as a JSON object, and property lookup with defaults.
 */
module Flow {

  import opened Wrappers
  import opened Document

  /**
   * The text of a flow file as Gson reads it: not JSON at all, empty or whitespace only,
   * or a JSON document.
   */
  datatype Content = Malformed | Blank | Parsed(doc: Json)

  /** A flow file taken from the session: its size in bytes and its content. */
  datatype FlowFile = FlowFile(size: nat, content: Content)

  /**
   * What one onTrigger call does with its input:
   * Rejected — no flow file, or an empty one: nothing is read and nothing is transformed;
   * Success — the document written to the success relationship, which is the transformed
   *   document as Gson writes it (`Written`: no null-valued field in any object);
   * Failure — a NullPointerException was caught and the original flow file goes to failure;
   * Escaped — any other exception leaves onTrigger.
   */
  datatype Outcome =
    | Rejected
    | Success(doc: Json)
    | Failure(original: FlowFile)
    | Escaped(error: Exception)

  /** A parsed document is one Gson could have built: field names are unique at every level. */
  predicate ValidInput(input: Option<FlowFile>)
  {
    input.Some? && input.value.content.Parsed? ==> WellFormed(input.value.content.doc)
  }

  /** The `try { ... } catch (NullPointerException ex)` around a transform. */
  function Route(flowFile: FlowFile, r: Result<Json, Exception>): (o: Outcome)
    ensures r.Ok? <==> o.Success?
    ensures r.Ok? ==> o == Success(r.value)
    ensures o.Failure? <==> r == Err(NullPointer)
    ensures o.Failure? ==> o.original == flowFile
    ensures r.Err? && r.error != NullPointer ==> o == Escaped(r.error)
  {
    match r
    case Ok(doc) => Success(doc)
    case Err(NullPointer) => Failure(flowFile)
    case Err(e) => Escaped(e)
  }

  /** The checks at the head of every onTrigger: no flow file, or a flow file of size zero. */
  predicate IsRejected(input: Option<FlowFile>)
  {
    input.None? || input.value.size == 0
  }

  /**
   * `gson.fromJson(text, JsonObject.class)`: blank text gives Java null (None), an object
   * its fields; any other document, and text that is not JSON, a JsonSyntaxException.
   */
  function FromJsonObject(content: Content): (r: Result<Option<seq<Member>>, Exception>)
    ensures r.Ok? <==> content.Blank? || (content.Parsed? && content.doc.JObj?)
    ensures r.Ok? && r.value.None? <==> content.Blank?
    ensures r.Ok? && r.value.Some? ==> r.value.value == content.doc.members
    ensures r.Err? ==> r.error == JsonSyntax
  {
    match content
    case Blank => Ok(None)
    case Parsed(JObj(ms)) => Ok(Some(ms))
    case _ => Err(JsonSyntax)
  }

  /**
   * `JsonParser.parseString(text)`: blank text gives the JSON null element; text that is
   * not JSON raises JsonSyntaxException.
   */
  function ParseString(content: Content): (r: Result<Json, Exception>)
    ensures r.Err? <==> content.Malformed?
    ensures r.Err? ==> r.error == JsonSyntax
    ensures content.Blank? ==> r == Ok(JNull)
    ensures content.Parsed? ==> r == Ok(content.doc)
  {
    match content
    case Malformed => Err(JsonSyntax)
    case Blank => Ok(JNull)
    case Parsed(doc) => Ok(doc)
  }

  /** `getAsJsonObject()`: the fields of an object; any other element raises IllegalStateException. */
  function GetAsJsonObject(element: Json): (r: Result<seq<Member>, Exception>)
    ensures r.Ok? <==> element.JObj?
    ensures r.Ok? ==> r.value == element.members
    ensures r.Err? ==> r.error == IllegalState
  {
    if element.JObj? then Ok(element.members) else Err(IllegalState)
  }

  /**
   * `context.getProperty(descriptor).getValue()`: the configured value, or the
   * descriptor's default when none is configured.
   */
  function PropertyValue(context: map<string, string>, name: string, default: string): (v: string)
    ensures name in context ==> v == context[name]
    ensures name !in context ==> v == default
  {
    if name in context then context[name] else default
  }
}
