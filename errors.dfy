/**
 * The engine's errors. The source returns them as text of the form
 * "LIST <message> && <code>" and every caller recognises such a text with
 * check_for_LIST; here they are a datatype, with the text encoding kept so that
 * the sentinel test can be stated against it.
 */
module Errors {
  import opened Wrappers
  import opened Strings

  /** The exceptions that reach a generic handler. */
  datatype Exception =
    | IndexOutOfRange               // IndexError on a list
    | StopIteration                 // the CSV reader's next() on an empty file
    | InvalidLiteral(text: string)  // ValueError of int()
    | NotABoolean(text: string)     // ValueError of ConfigParser.getboolean
  {
    /** str(e), the text the handler puts into the error string. */
    function Text(): string {
      match this
      case IndexOutOfRange => "list index out of range"
      case StopIteration => ""
      case InvalidLiteral(text) => "invalid literal for int() with base 10: '" + text + "'"
      case NotABoolean(text) => "Not a boolean: " + text
    }
  }

  datatype Error =
    | EmptyField                                    // a blank non-URL field in a catalog row
    | InvalidDifficulty(line: nat, level: string)   // stripped difficulty not Hard/Medium/Easy
    | InvalidScoreFormat(line: nat, score: string)  // score field not an integer literal
    | InvalidScoreRange(line: nat, value: int)      // score outside [0, 100]
    | MalformedConfig                               // not exactly one config section
    | MissingOptions(names: seq<string>)            // required config keys absent
    | InvalidType(option: string)                   // a config key that is not an integer
    | InconsistentQuota                             // hard + medium + easy != questions_amount
    | CatalogExhausted                              // no questions to draw from
    | Unexpected(raised: Exception)                 // an exception caught by a generic handler
  {
    /** The numeric code the source appends after "&&". */
    function Code(): (c: int)
      ensures c in {400, 500, 520}
      ensures c == 520 <==> Unexpected?
    {
      match this
      case CatalogExhausted => 500
      case Unexpected(_) => 520
      case _ => 400
    }

    function Message(): string {
      match this
      case EmptyField => "Empty value found in CSV."
      case InvalidDifficulty(line, level) =>
        "Invalid difficulty level at line " + ShowInt(line) + ": " + level + "."
      case InvalidScoreFormat(line, score) =>
        "Invalid score format at line " + ShowInt(line) + ": " + score + "."
      case InvalidScoreRange(line, value) =>
        "Invalid score range at line " + ShowInt(line) + ": " + ShowInt(value) + "."
      case MalformedConfig => "Config file must contain exactly one section."
      case MissingOptions(names) => "Missing required options in config file: " + ListRepr(names)
      case InvalidType(option) => "Invalid value type for " + option + ": expected integer."
      case InconsistentQuota =>
        "The sum of hard, medium, and easy questions must equal the total questions amount."
      case CatalogExhausted => "Failed to load questions from CSV file."
      case Unexpected(raised) => raised.Text()
    }
  }

  /** Python's repr of a list of plain strings: ['a', 'b']. */
  function ListRepr(names: seq<string>): string {
    "[" + ReprItems(names) + "]"
  }

  function ReprItems(names: seq<string>): string {
    if names == [] then ""
    else if |names| == 1 then "'" + names[0] + "'"
    else "'" + names[0] + "', " + ReprItems(names[1..])
  }

  /** The text form the source returns for an error. */
  function Encode(e: Error): string {
    "LIST " + e.Message() + " && " + ShowInt(e.Code())
  }

  /** check_for_LIST: true exactly when the value is present and some whitespace-separated
      word of it is the literal LIST. */
  function CheckForList(value: Option<string>): (r: bool)
    ensures r <==> value.Some? && exists i :: DelimitedAt(value.value, "LIST", i)
  {
    match value
    case None => false
    case Some(s) =>
      WordsFindDelimited(s, "LIST");
      "LIST" in Words(s)
  }

  /** Every encoded error is recognised by the sentinel test, whatever its message says. */
  lemma EncodedErrorIsFlagged(e: Error)
    ensures CheckForList(Some(Encode(e)))
  {
    var s := Encode(e);
    assert s[0..4] == "LIST" && s[4] == ' ';
    assert DelimitedAt(s, "LIST", 0);
  }

  /** A single word (no whitespace in it) is the sentinel exactly when it is LIST itself, so
      LIST glued to other characters is not recognised. */
  lemma SingleWordFlagged(s: string)
    requires NoSpace(s)
    ensures CheckForList(Some(s)) <==> s == "LIST"
  {
    if s == "LIST" {
      assert DelimitedAt(s, "LIST", 0);
    }
    forall i | DelimitedAt(s, "LIST", i) ensures s == "LIST" {
      assert i == 0 && i + 4 == |s|;
    }
  }
}
