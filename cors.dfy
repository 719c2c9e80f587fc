/**
 * The custom environment source of the CORS settings: the four list-valued
 * fields are read from one environment variable each, as a comma-separated
 * list whose items are stripped of surrounding whitespace. Every other field,
 * and a list field whose variable is not set, passes through unchanged.
 */
module Cors {
  import opened Strings

  /** A settings field value as the source sees it: not set, raw text, or a parsed list. */
  datatype FieldValue = Unset | Text(text: string) | Items(items: seq<string>)

  /** The fields whose environment text is split into a list. */
  const ListFields: seq<string> := ["allow_origins", "allow_methods", "allow_headers", "expose_headers"]

  /** The list read from one comma-separated environment value. */
  function CommaList(text: string): (items: seq<string>)
    ensures |items| == Count(text, ',') + 1
    ensures forall i :: 0 <= i < |items| ==> items[i] == Strip(Split(text, ',')[i])
    ensures forall i :: 0 <= i < |items| ==> ',' !in items[i]
    ensures forall i :: 0 <= i < |items| ==>
      items[i] == [] || (!IsSpace(items[i][0]) && !IsSpace(items[i][|items[i]| - 1]))
  {
    var pieces := Split(text, ',');
    var items := seq(|pieces|, i requires 0 <= i < |pieces| => Strip(pieces[i]));
    assert forall i :: 0 <= i < |items| ==> ',' !in items[i] by {
      forall i | 0 <= i < |items| ensures ',' !in items[i] {
        StripSubsequence(pieces[i], ',');
      }
    }
    items
  }

  /** `MyCustomSource.prepare_field_value`. */
  function PrepareFieldValue(fieldName: string, value: FieldValue): (r: FieldValue)
    ensures fieldName in ListFields && value.Text? ==> r == Items(CommaList(value.text))
    ensures !(fieldName in ListFields && value.Text?) ==> r == value
  {
    if fieldName in ListFields && value.Text? then Items(CommaList(value.text)) else value
  }

  /**
   * The items of a list field are the comma-separated pieces of the input, in
   * their order, each stripped: joining the unstripped pieces with commas gives
   * back the input.
   */
  lemma PreparedItemsFollowInput(fieldName: string, text: string)
    requires fieldName in ListFields
    ensures var pieces := Split(text, ',');
      && Join(pieces, ',') == text
      && PrepareFieldValue(fieldName, Text(text)).Items?
      && |PrepareFieldValue(fieldName, Text(text)).items| == |pieces|
      && forall i :: 0 <= i < |pieces| ==>
           PrepareFieldValue(fieldName, Text(text)).items[i] == Strip(pieces[i])
  {
    JoinSplit(text, ',');
  }

  /** A character that `Strip` keeps can only be one of the input's characters. */
  lemma StripSubsequence(s: string, c: char)
    requires c !in s
    ensures c !in Strip(s)
  {
    var t := Strip(s);
    forall k | 0 <= k < |t| ensures t[k] != c {
      assert t[k] == s[StripStart(s) + k];
    }
  }
}
