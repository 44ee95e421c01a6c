/**
 * The memo-field registry of backend/controllers/field.controller.js: creation
 * under a unique name, and the listing in stored order.
 */
module FieldController {
  import opened Wrappers
  import opened MemoModel
  import opened Store

  const FieldExists := Failure(BadRequest, "Field with this name already exists")

  predicate NameTaken(fields: seq<MemoField>, name: string) {
    exists i :: 0 <= i < |fields| && fields[i].name == name
  }

  /** createMemoField: the field to store, made by `requester`, or the duplicate-name error. */
  function FieldCreation(fields: seq<MemoField>, requester: UserId, name: string, fieldType: string,
                         required: bool, options: seq<string>): (r: Result<MemoField>)
    ensures r.Err? <==> NameTaken(fields, name)
    ensures r.Err? ==> r.failure == FieldExists
    ensures r.Ok? ==> && r.value.name == name && r.value.fieldType == fieldType && r.value.required == required
                      && r.value.options == options && r.value.createdBy == requester
  {
    if NameTaken(fields, name) then Err(FieldExists)
    else Ok(MemoField(name, fieldType, required, options, requester))
  }

  /** A registry extended by a field of a new name keeps names unique. */
  lemma AppendKeepsUnique(fields: seq<MemoField>, f: MemoField)
    requires UniqueFieldNames(fields) && !NameTaken(fields, f.name)
    ensures UniqueFieldNames(fields + [f])
  {
  }

  /** createMemoField: check the name, then append the new field to the registry. */
  method CreateMemoField(db: Database, requester: UserId, name: string, fieldType: string,
                         required: bool, options: seq<string>) returns (r: Result<MemoField>)
    modifies db
    ensures r == FieldCreation(old(db.fields), requester, name, fieldType, required, options)
    ensures db.fields == if r.Ok? then old(db.fields) + [r.value] else old(db.fields)
    ensures UniqueFieldNames(old(db.fields)) ==> UniqueFieldNames(db.fields)
    ensures db.users == old(db.users) && db.memos == old(db.memos)
  {
    if exists i :: 0 <= i < |db.fields| && db.fields[i].name == name {
      return Err(FieldExists);
    }
    var field := MemoField(name, fieldType, required, options, requester);
    if UniqueFieldNames(db.fields) {
      AppendKeepsUnique(db.fields, field);
    }
    db.fields := db.fields + [field];
    r := Ok(field);
  }

  /** getMemoFields: the whole registry, in stored order. */
  method GetMemoFields(db: Database) returns (r: seq<MemoField>)
    ensures r == db.fields
  {
    r := db.fields;
  }
}
