/** The decisions the users controller takes before it answers: which view of a user
    `getUserById` asks for, and how `putUser` judges an edit request by the keys of its body. */
module UsersController {
  import opened Wrappers

  /** Fields a user may never change through `putUser`. */
  const NonEditableFields: seq<string> := ["token", "email_verified", "password", "email", "username"]

  /** Fields a user may change through `putUser`. */
  const EditableFields: seq<string> := ["first_name", "last_name", "country_id", "code_phone", "phone", "interests"]

  const NotEditablePrefix := "The following fields are not editable: "
  const NoValidField := "You must provide at least one valid field to edit"

  /** The scope value `getUserById` passes for the privileged view of a user. */
  const SameOrAdmin := 1

  /** The role id of an administrator. */
  const AdminRole := 2

  datatype Body = ErrorBody(error: string) | MessageBody(message: string)

  /** How a handler ends: a JSON response, or the error handed on to `next`. */
  datatype Reply = Respond(status: int, body: Body) | PassToNext

  /** What `putUser` answers, and whether it called `updateUser` on the way. */
  datatype PutUserResult = PutUserResult(reply: Reply, updateCalled: bool)

  /** The scope argument of `getUser`: the privileged view for the user themself or for an
      administrator, the default view (no argument) for anyone else. */
  function GetUserScope(isSameUser: bool, userRole: Option<int>): (scope: Option<int>)
    ensures scope == Some(SameOrAdmin) <==> isSameUser || userRole == Some(AdminRole)
    ensures scope != Some(SameOrAdmin) ==> scope == None
  {
    if isSameUser || userRole == Some(AdminRole) then Some(SameOrAdmin) else None
  }

  /** `keys.filter(k => allowed.includes(k))`. */
  function Filter(keys: seq<string>, allowed: seq<string>): seq<string> {
    if keys == [] then []
    else (if keys[0] in allowed then [keys[0]] else []) + Filter(keys[1..], allowed)
  }

  /** Filtering keeps exactly the keys that are allowed, so it is empty exactly when no key is. */
  lemma {:induction false} FilterMembers(keys: seq<string>, allowed: seq<string>)
    ensures forall k :: k in Filter(keys, allowed) <==> k in keys && k in allowed
    ensures Filter(keys, allowed) == [] <==> forall k :: k in keys ==> k !in allowed
  {
    if keys != [] {
      FilterMembers(keys[1..], allowed);
      assert forall k :: k in keys <==> k == keys[0] || k in keys[1..];
    }
  }

  /** Filtering keeps the relative order of the keys: it distributes over concatenation. */
  lemma {:induction false} FilterAppend(a: seq<string>, b: seq<string>, allowed: seq<string>)
    ensures Filter(a + b, allowed) == Filter(a, allowed) + Filter(b, allowed)
  {
    if a == [] {
      assert a + b == b;
    } else {
      FilterAppend(a[1..], b, allowed);
      assert (a + b)[0] == a[0] && (a + b)[1..] == a[1..] + b;
    }
  }

  /** `parts.join(sep)`. */
  function Join(parts: seq<string>, sep: string): string {
    if parts == [] then ""
    else if |parts| == 1 then parts[0]
    else parts[0] + sep + Join(parts[1..], sep)
  }

  /** Joining one more part appends the separator and the part. */
  lemma {:induction false} JoinSnoc(parts: seq<string>, x: string, sep: string)
    requires parts != []
    ensures Join(parts + [x], sep) == Join(parts, sep) + sep + x
  {
    if |parts| == 1 {
      assert parts + [x] == [parts[0], x];
    } else {
      JoinSnoc(parts[1..], x, sep);
      assert (parts + [x])[1..] == parts[1..] + [x];
    }
  }

  /** The body keys `putUser` refuses, in body order. */
  function InvalidFields(keys: seq<string>): seq<string> {
    Filter(keys, NonEditableFields)
  }

  /** The body keys `putUser` accepts, in body order. */
  function ValidFields(keys: seq<string>): seq<string> {
    Filter(keys, EditableFields)
  }

  /** `putUser`, given whether the caller is the user being edited, the keys of the request
      body in order, and whether the `updateUser` call throws. */
  function PutUser(isSameUser: bool, bodyKeys: seq<string>, updateFails: bool): (r: PutUserResult)
    ensures r.updateCalled <==> isSameUser
    ensures !isSameUser ==> r.reply == Respond(401, ErrorBody("Unauthorized"))
    ensures r.reply == Respond(200, MessageBody("Success Update")) <==>
      && isSameUser && !updateFails
      && (forall k :: k in bodyKeys ==> k !in NonEditableFields)
      && (exists k :: k in bodyKeys && k in EditableFields)
  {
    if !isSameUser then
      PutUserResult(Respond(401, ErrorBody("Unauthorized")), false)
    else if updateFails then
      PutUserResult(PassToNext, true)
    else
      var invalid := InvalidFields(bodyKeys);
      FilterMembers(bodyKeys, NonEditableFields);
      FilterMembers(bodyKeys, EditableFields);
      if |invalid| > 0 then
        PutUserResult(Respond(400, ErrorBody(NotEditablePrefix + Join(invalid, ", "))), true)
      else if |ValidFields(bodyKeys)| == 0 then
        PutUserResult(Respond(400, ErrorBody(NoValidField)), true)
      else
        PutUserResult(Respond(200, MessageBody("Success Update")), true)
  }

  /** A body with a non-editable key is refused with a 400 listing exactly the non-editable
      keys, even when it also holds editable ones; the update has already been made. */
  lemma NonEditableRejected(bodyKeys: seq<string>, k: string)
    requires k in bodyKeys && k in NonEditableFields
    ensures PutUser(true, bodyKeys, false) ==
      PutUserResult(Respond(400, ErrorBody(NotEditablePrefix + Join(InvalidFields(bodyKeys), ", "))), true)
    ensures forall f :: f in InvalidFields(bodyKeys) <==> f in bodyKeys && f in NonEditableFields
  {
    FilterMembers(bodyKeys, NonEditableFields);
  }

  /** A body with no non-editable key and no editable key is refused with a 400. */
  lemma NoEditableRejected(bodyKeys: seq<string>)
    requires forall k :: k in bodyKeys ==> k !in NonEditableFields && k !in EditableFields
    ensures PutUser(true, bodyKeys, false) == PutUserResult(Respond(400, ErrorBody(NoValidField)), true)
  {
    FilterMembers(bodyKeys, NonEditableFields);
    FilterMembers(bodyKeys, EditableFields);
  }

  /** A key in neither list is ignored wherever it stands in the body. */
  lemma {:induction false} IgnoredKeyIsIgnored(before: seq<string>, k: string, after: seq<string>, isSameUser: bool, updateFails: bool)
    requires k !in NonEditableFields && k !in EditableFields
    ensures PutUser(isSameUser, before + [k] + after, updateFails) == PutUser(isSameUser, before + after, updateFails)
  {
    FilterSkip(before, k, after, NonEditableFields);
    FilterSkip(before, k, after, EditableFields);
  }

  lemma FilterSkip(before: seq<string>, k: string, after: seq<string>, allowed: seq<string>)
    requires k !in allowed
    ensures Filter(before + [k] + after, allowed) == Filter(before + after, allowed)
  {
    FilterAppend(before + [k], after, allowed);
    FilterAppend(before, [k], allowed);
    FilterAppend(before, after, allowed);
    assert [k][1..] == [];
  }

  /** Adding a key to the body appends it to the message of the non-editable error. */
  lemma {:induction false} InvalidFieldsMessageGrows(bodyKeys: seq<string>, k: string)
    requires k in NonEditableFields && InvalidFields(bodyKeys) != []
    ensures PutUser(true, bodyKeys + [k], false).reply ==
      Respond(400, ErrorBody(NotEditablePrefix + Join(InvalidFields(bodyKeys), ", ") + ", " + k))
  {
    FilterAppend(bodyKeys, [k], NonEditableFields);
    assert Filter([k], NonEditableFields) == [k] by {
      assert [k][0] == k && [k][1..] == [];
    }
    var invalid := InvalidFields(bodyKeys + [k]);
    assert invalid == InvalidFields(bodyKeys) + [k];
    JoinSnoc(InvalidFields(bodyKeys), k, ", ");
    assert Join(invalid, ", ") == Join(InvalidFields(bodyKeys), ", ") + ", " + k;
    assert NotEditablePrefix + Join(invalid, ", ")
        == NotEditablePrefix + Join(InvalidFields(bodyKeys), ", ") + ", " + k;
    assert |invalid| > 0;
  }
}
