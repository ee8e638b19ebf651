/** The accessibility attributes of one labelled input (src/components/Field.tsx):
    which id the error message gets, what `aria-describedby` lists,
    `aria-invalid`, the message's role and text, and `data-state`. The JSX
    itself is not modelled. */
module Field {
  import opened Wrappers
  import opened Text

  /** The visual state of a field, chosen by the form. */
  datatype FieldState = Idle | Focused | Typing | Valid | Invalid

  /** JavaScript truthiness of an optional string: present and non-empty. */
  predicate Truthy(s: Option<string>) {
    s.Some? && s.value != ""
  }

  /** The props this model reads. */
  datatype FieldProps = FieldProps(id: string, error: Option<string>, describedBy: Option<string>, state: FieldState)

  /** The attributes the component renders from them. */
  datatype FieldAttributes = FieldAttributes(
    dataState: FieldState,
    ariaInvalid: bool,
    ariaDescribedBy: Option<string>,
    messageId: Option<string>,
    messageRole: Option<string>,
    messageText: string)

  /** `errorId`: the message's id, present only while there is an error. */
  function ErrorId(id: string, error: Option<string>): (r: Option<string>)
    ensures r.Some? <==> Truthy(error)
    ensures r.Some? ==> r.value == id + "-error"
  {
    if Truthy(error) then Some(id + "-error") else None
  }

  /** `.filter(Boolean)` on a list of optional strings. */
  function KeepTruthy(xs: seq<Option<string>>): (ys: seq<string>)
    ensures |ys| <= |xs|
    ensures forall k | 0 <= k < |ys| :: ys[k] != ""
    ensures forall s :: s in ys <==> s != "" && Some(s) in xs
  {
    if xs == [] then []
    else if Truthy(xs[0]) then [xs[0].value] + KeepTruthy(xs[1..])
    else KeepTruthy(xs[1..])
  }

  /** Filtering distributes over concatenation, so it keeps the truthy
      entries in their original order. */
  lemma {:induction false} KeepTruthyAppend(a: seq<Option<string>>, b: seq<Option<string>>)
    ensures KeepTruthy(a + b) == KeepTruthy(a) + KeepTruthy(b)
  {
    if a == [] {
      assert a + b == b;
    } else {
      assert (a + b)[1..] == a[1..] + b;
      KeepTruthyAppend(a[1..], b);
    }
  }

  lemma KeepTruthyPair(x: Option<string>, y: Option<string>)
    ensures KeepTruthy([x, y]) ==
              (if Truthy(x) then [x.value] else []) + (if Truthy(y) then [y.value] else [])
  {
    assert [x, y][1..] == [y];
    assert [y][1..] == [];
  }

  /** `describedByAttr`: the truthy ids among `describedBy` and `errorId`,
      joined by one space, or nothing when that join is empty. */
  function DescribedBy(describedBy: Option<string>, errorId: Option<string>): (r: Option<string>)
    ensures r.None? <==> !Truthy(describedBy) && !Truthy(errorId)
    ensures Truthy(describedBy) && Truthy(errorId) ==> r == Some(describedBy.value + " " + errorId.value)
    ensures Truthy(describedBy) && !Truthy(errorId) ==> r == describedBy
    ensures !Truthy(describedBy) && Truthy(errorId) ==> r == errorId
  {
    var ids := KeepTruthy([describedBy, errorId]);
    KeepTruthyPair(describedBy, errorId);
    JoinEmpty(ids, " ");
    var joined := Join(ids, " ");
    if joined == "" then None else Some(joined)
  }

  /** Everything the component derives from its props. */
  function Attributes(p: FieldProps): (a: FieldAttributes)
    ensures a.dataState == p.state
    ensures a.ariaInvalid <==> Truthy(p.error)
    ensures a.messageRole.Some? <==> Truthy(p.error)
    ensures a.messageRole.Some? ==> a.messageRole.value == "alert"
    ensures a.messageText == p.error.GetOr("")
    ensures a.ariaInvalid <==> a.messageId.Some?
    ensures a.messageId.Some? ==> a.ariaDescribedBy.Some?
  {
    var errorId := ErrorId(p.id, p.error);
    FieldAttributes(
      p.state,
      Truthy(p.error),
      DescribedBy(p.describedBy, errorId),
      errorId,
      if Truthy(p.error) then Some("alert") else None,
      p.error.GetOr(""))
  }

  /** An id usable in an id list: non-empty and without spaces. */
  predicate IsIdToken(s: string) {
    s != "" && ' ' !in s
  }

  /** Read as the space-separated id list assistive technology sees,
      `aria-describedby` names the helper text first and then, exactly when
      the field is invalid, the error message element. */
  lemma DescribedByNamesMessage(p: FieldProps)
    requires IsIdToken(p.id)
    requires p.describedBy.Some? ==> ' ' !in p.describedBy.value
    ensures var a := Attributes(p);
            a.ariaDescribedBy.Some? ==>
              Split(a.ariaDescribedBy.value, ' ') ==
                (if Truthy(p.describedBy) then [p.describedBy.value] else [])
                + (if a.ariaInvalid then [a.messageId.value] else [])
  {
    var a := Attributes(p);
    if a.ariaDescribedBy.Some? {
      var ids := (if Truthy(p.describedBy) then [p.describedBy.value] else [])
                 + (if a.ariaInvalid then [a.messageId.value] else []);
      assert ' ' !in p.id + "-error";
      assert a.ariaDescribedBy.value == Join(ids, [' ']);
      SplitJoin(ids, ' ');
    }
  }
}
