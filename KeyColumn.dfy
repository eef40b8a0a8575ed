/**
 GetKeyColumn: which member of a record shape is its primary key, and the key
 value of an instance. Reflection is replaced by the shape's explicit member list.
 */
module KeyColumn {
  import opened XsvTypes

  predicate IsKeyOfKind(m: Member, kind: MemberKind) {
    m.isKey && m.kind == kind
  }

  /** The first member of `kind` at or after position `from` that carries [XsvKey]. */
  function FirstKeyOfKind(members: seq<Member>, kind: MemberKind, from: nat): (r: Option<nat>)
    requires from <= |members|
    ensures r.Some? ==> from <= r.value < |members| && IsKeyOfKind(members[r.value], kind)
    ensures r.Some? ==> forall j :: from <= j < r.value ==> !IsKeyOfKind(members[j], kind)
    ensures r.None? <==> forall j :: from <= j < |members| ==> !IsKeyOfKind(members[j], kind)
    decreases |members| - from
  {
    if from == |members| then None
    else if IsKeyOfKind(members[from], kind) then Some(from)
    else FirstKeyOfKind(members, kind, from + 1)
  }

  /**
   The position of the key member: the first key-marked field in declaration order,
   else the first key-marked property, else none. A member bound to a column but not
   marked is never chosen.
   */
  function KeyMember(shape: Shape): (r: Option<nat>)
    ensures r.Some? ==> r.value < |shape.members| && shape.members[r.value].isKey
    ensures r.Some? ==> forall j :: 0 <= j < r.value ==> !IsKeyOfKind(shape.members[j], shape.members[r.value].kind)
    ensures (exists j :: 0 <= j < |shape.members| && IsKeyOfKind(shape.members[j], Field)) ==>
              r.Some? && shape.members[r.value].kind == Field
    ensures r.None? <==> forall j :: 0 <= j < |shape.members| ==> !shape.members[j].isKey
  {
    match FirstKeyOfKind(shape.members, Field, 0)
    case Some(i) => Some(i)
    case None => FirstKeyOfKind(shape.members, Property, 0)
  }

  /** The boxed value of the instance's key member, or null when the shape has none. */
  function GetKeyColumn(shape: Shape, instance: Record): (v: Value)
    ensures KeyMember(shape).None? ==> v == Null
    ensures KeyMember(shape).Some? ==> v == ValueAt(instance, KeyMember(shape).value)
  {
    match KeyMember(shape)
    case None => Null
    case Some(i) => ValueAt(instance, i)
  }
}
