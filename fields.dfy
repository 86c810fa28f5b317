/** Field names that a validation error can be keyed by, and the shared
    checks of the serializer layer's text fields. */
module Fields {
  import opened Wrappers

  /** The keys of a field-keyed validation error; `NonField` is the key of
      an error that is not about one field (a failed uniqueness check). */
  datatype Field =
    | Username | Email | FirstName | LastName | Bio | Role
    | Name | Slug | Year | Category | Genre | Description
    | Text | Score | ConfirmationCode | NonField

  /** A submitted text field passes its serializer checks: present when
      required, non-empty unless blank is allowed, at most `maxLength` long. */
  predicate TextOk(v: Option<string>, required: bool, allowBlank: bool, maxLength: nat)
  {
    match v
    case None => !required
    case Some(s) => (allowBlank || |s| > 0) && |s| <= maxLength
  }

  /** A submitted field of unbounded text that may not be blank. */
  predicate FilledOk(v: Option<string>, required: bool)
  {
    match v
    case None => !required
    case Some(s) => |s| > 0
  }

  /** The error set that keys `f` exactly when `bad` holds. */
  function ErrorIf(bad: bool, f: Field): (r: set<Field>)
    ensures f in r <==> bad
    ensures r <= {f}
  {
    if bad then {f} else {}
  }
}
