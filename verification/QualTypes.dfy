/**
 * The conversion of C types to JSON with a table of the types already converted.
 *
 * A type is known by its address, here its position in the context that owns all types. A context builds a
 * type after the types it is made of; only the fields of a record may lead to later types, or back to the
 * record itself.
 */
module QualTypes {

  datatype Json =
    | JNull
    | JString(s: string)
    | JNumber(n: nat)
    | JBool(b: bool)
    | JArray(items: seq<Json>)
    | JObject(members: seq<(string, Json)>)

  datatype Qualifiers = Qualifiers(spelling: string, hasQualifiers: bool, isConst: bool, isVolatile: bool,
                                   isRestrict: bool, isUnaligned: bool)

  datatype AddressSpace = AddressSpace(name: string, target: nat)

  datatype CanonicalQualType =
    CanonicalQualType(typePtr: nat, spelling: string, usageInDecls: string, qualifiers: Qualifiers,
                      addressSpace: AddressSpace)

  datatype QualType = NoType | QualType(spelling: string, canonical: CanonicalQualType)

  datatype Type =
    | Builtin(kind: string, name: string)
    | Pointer(pointee: QualType)
    | ConstantArray(size: nat, element: QualType)
    | VariableArray(element: QualType)
    | IncompleteArray(element: QualType)
    | Record(name: string, fields: seq<QualType>)
    | Enum(name: string)
    | FunctionProto(returns_: QualType, params: seq<QualType>)
    | FunctionNoProto(returns_: QualType)
    | OtherType

  /** The type of `q` was built before position `k`. */
  predicate Before(q: QualType, k: nat) {
    q.QualType? ==> q.canonical.typePtr < k
  }

  function Rank(q: QualType): nat {
    if q.NoType? then 0 else q.canonical.typePtr + 1
  }

  predicate WellBuilt(t: Type, k: nat) {
    match t
    case Pointer(q) => Before(q, k)
    case ConstantArray(_, q) => Before(q, k)
    case VariableArray(q) => Before(q, k)
    case IncompleteArray(q) => Before(q, k)
    case FunctionProto(q, params) => Before(q, k) && forall i :: 0 <= i < |params| ==> Before(params[i], k)
    case FunctionNoProto(q) => Before(q, k)
    case _ => true
  }

  predicate WellFounded(types: seq<Type>) {
    forall k :: 0 <= k < |types| ==> WellBuilt(types[k], k)
  }

  function QualifiersJson(q: Qualifiers): Json {
    JObject([("spelling", JString(q.spelling)),
             ("hasQualifiers", JBool(q.hasQualifiers)),
             ("hasConst", JBool(q.isConst)),
             ("hasVolatile", JBool(q.isVolatile)),
             ("hasRestrict", JBool(q.isRestrict)),
             ("hasUnaligned", JBool(q.isUnaligned))])
  }

  function AddressSpaceJson(a: AddressSpace): Json {
    JObject([("addressSpace", JString(a.name)), ("targetAddressSpace", JNumber(a.target))])
  }

  /** The object around the JSON of the type itself. */
  function Wrap(q: QualType, t: Json): Json
    requires q.QualType?
  {
    var c := q.canonical;
    JObject([("typeAsString", JString(q.spelling)),
             ("canonicalTypeAsString", JString(c.spelling)),
             ("typeUsageInDecls", JString(c.usageInDecls)),
             ("qual", QualifiersJson(c.qualifiers)),
             ("type", t),
             ("langAddressSpace", AddressSpaceJson(c.addressSpace))])
  }

  // ---- the conversion without tables

  function QualTypeJson(types: seq<Type>, q: QualType): Json
    requires WellFounded(types) && Before(q, |types|)
    decreases Rank(q), 2
  {
    if q.NoType? then JNull else Wrap(q, TypeJson(types, q.canonical.typePtr))
  }

  /** The JSON of the type at `k`. A record and an enum give only their name. */
  function TypeJson(types: seq<Type>, k: nat): Json
    requires WellFounded(types) && k < |types|
    decreases k + 1, 1
  {
    match types[k]
    case Builtin(kind, name) =>
      JObject([("class", JString("builtin")), ("builtinKind", JString(kind)), ("name", JString(name))])
    case Pointer(q) =>
      JObject([("class", JString("pointer")), ("pointeeType", QualTypeJson(types, q))])
    case ConstantArray(size, q) =>
      JObject([("class", JString("array")), ("arrayKind", JString("constant")), ("size", JNumber(size)),
               ("elementType", QualTypeJson(types, q))])
    case VariableArray(q) =>
      JObject([("class", JString("array")), ("arrayKind", JString("variable")), ("sizeExpr", JNull),
               ("elementType", QualTypeJson(types, q))])
    case IncompleteArray(q) =>
      JObject([("class", JString("array")), ("arrayKind", JString("incomplete")),
               ("elementType", QualTypeJson(types, q))])
    case Record(name, _) =>
      JObject([("class", JString("record")), ("recordKind", JString("struct")), ("name", JString(name))])
    case Enum(name) =>
      JObject([("class", JString("enum")), ("name", JString(name))])
    case FunctionProto(q, params) =>
      JObject([("class", JString("function")), ("functionKind", JString("proto")),
               ("returnType", QualTypeJson(types, q)), ("paramTypes", JArray(ParamsJson(types, params, k)))])
    case FunctionNoProto(q) =>
      JObject([("class", JString("function")), ("functionKind", JString("no_proto")),
               ("returnType", QualTypeJson(types, q))])
    case OtherType => JNull
  }

  function ParamsJson(types: seq<Type>, params: seq<QualType>, k: nat): seq<Json>
    requires WellFounded(types) && k <= |types| && forall i :: 0 <= i < |params| ==> Before(params[i], k)
    decreases k + 1, 0, |params|
  {
    if params == [] then []
    else
      assert Before(params[|params| - 1], k);
      ParamsJson(types, params[..|params| - 1], k) + [QualTypeJson(types, params[|params| - 1])]
  }

  /** The same type, or two records of the same name. */
  predicate SameButFields(t: Type, u: Type) {
    t == u || (t.Record? && u.Record? && t.name == u.name)
  }

  predicate AlikeButFields(types: seq<Type>, others: seq<Type>) {
    |types| == |others| && forall k :: 0 <= k < |types| ==> SameButFields(types[k], others[k])
  }

  /** What the fields of the records are, back to the record itself or forward to later types, makes no
      difference: this is why the recursion ends. */
  lemma {:induction false} FieldsIgnored(types: seq<Type>, others: seq<Type>, k: nat)
    requires WellFounded(types) && WellFounded(others) && AlikeButFields(types, others) && k < |types|
    ensures TypeJson(types, k) == TypeJson(others, k)
    decreases k + 1, 1
  {
    assert WellBuilt(types[k], k) && SameButFields(types[k], others[k]);
    match types[k]
    case Pointer(q) => FieldsIgnoredAt(types, others, q);
    case ConstantArray(_, q) => FieldsIgnoredAt(types, others, q);
    case VariableArray(q) => FieldsIgnoredAt(types, others, q);
    case IncompleteArray(q) => FieldsIgnoredAt(types, others, q);
    case FunctionProto(q, params) =>
      FieldsIgnoredAt(types, others, q);
      FieldsIgnoredIn(types, others, params, k);
    case FunctionNoProto(q) => FieldsIgnoredAt(types, others, q);
    case _ =>
  }

  lemma {:induction false} FieldsIgnoredAt(types: seq<Type>, others: seq<Type>, q: QualType)
    requires WellFounded(types) && WellFounded(others) && AlikeButFields(types, others) && Before(q, |types|)
    ensures QualTypeJson(types, q) == QualTypeJson(others, q)
    decreases Rank(q), 2
  {
    if q.QualType? { FieldsIgnored(types, others, q.canonical.typePtr); }
  }

  lemma {:induction false} FieldsIgnoredIn(types: seq<Type>, others: seq<Type>, params: seq<QualType>, k: nat)
    requires WellFounded(types) && WellFounded(others) && AlikeButFields(types, others) && k <= |types|
    requires forall i :: 0 <= i < |params| ==> Before(params[i], k)
    ensures ParamsJson(types, params, k) == ParamsJson(others, params, k)
    decreases k + 1, 0, |params|
  {
    if params != [] {
      var n := |params| - 1;
      assert Before(params[n], k);
      FieldsIgnoredIn(types, others, params[..n], k);
      FieldsIgnoredAt(types, others, params[n]);
    }
  }

  /** Any fields may be given to the record at `k`: the context stays well-founded and every JSON the same. */
  lemma {:induction false} AnyFields(types: seq<Type>, k: nat, fields: seq<QualType>, j: nat)
    requires WellFounded(types) && k < |types| && types[k].Record? && j < |types|
    ensures var others := types[k := Record(types[k].name, fields)];
            WellFounded(others) && TypeJson(others, j) == TypeJson(types, j)
  {
    var others := types[k := Record(types[k].name, fields)];
    forall i | 0 <= i < |others| ensures WellBuilt(others[i], i) && SameButFields(types[i], others[i]) {
      assert WellBuilt(types[i], i);
    }
    FieldsIgnored(types, others, j);
  }

  // ---- the conversion with tables

  /** An entry of the table of qualified types: the JSON of some spelling of that canonical type. */
  ghost predicate FromSpelling(types: seq<Type>, c: CanonicalQualType, j: Json)
    requires WellFounded(types)
  {
    c.typePtr < |types| && exists spelling :: j == QualTypeJson(types, QualType(spelling, c))
  }

  class QualTypeJsonConverter {
    const types: seq<Type>
    var trackedTypes: map<nat, Json>
    var trackedQualTypes: map<CanonicalQualType, Json>

    /** Every entry is what the conversion without tables gives. */
    ghost predicate Valid()
      reads this
    {
      && WellFounded(types)
      && (forall k :: k in trackedTypes ==> k < |types| && trackedTypes[k] == TypeJson(types, k))
      && (forall c :: c in trackedQualTypes ==> FromSpelling(types, c, trackedQualTypes[c]))
    }

    constructor (types: seq<Type>)
      requires WellFounded(types)
      ensures Valid() && this.types == types && trackedTypes == map[] && trackedQualTypes == map[]
    {
      this.types := types;
      trackedTypes, trackedQualTypes := map[], map[];
    }

    /** The tables only gain entries. */
    twostate predicate Grows()
      reads this
    {
      && (forall k :: k in old(trackedTypes) ==> k in trackedTypes)
      && (forall c :: c in old(trackedQualTypes) ==> c in trackedQualTypes)
    }

    method ConvertQualTypeToJson(q: QualType) returns (j: Json)
      requires Valid() && Before(q, |types|)
      modifies this
      ensures Valid() && Grows() && j == QualTypeJson(types, q)
      ensures q.QualType? ==> q.canonical.typePtr in trackedTypes && q.canonical in trackedQualTypes
      ensures q.QualType? ==> trackedQualTypes[q.canonical] == j
      decreases Rank(q), 2
    {
      if q.NoType? {
        return JNull;
      }
      var k := q.canonical.typePtr;
      var t;
      if k in trackedTypes {
        t := trackedTypes[k];
      } else {
        t := Visit(k);
      }
      j := Wrap(q, t);
      assert j == QualTypeJson(types, QualType(q.spelling, q.canonical));
      trackedQualTypes := trackedQualTypes[q.canonical := j];
    }

    method Visit(k: nat) returns (j: Json)
      requires Valid() && k < |types|
      modifies this
      ensures Valid() && Grows() && j == TypeJson(types, k) && k in trackedTypes
      decreases k + 1, 1
    {
      if k in trackedTypes {
        return trackedTypes[k];
      }
      j := VisitNode(k);
      trackedTypes := trackedTypes[k := j];
    }

    /** The methods for the kinds of type. */
    method VisitNode(k: nat) returns (j: Json)
      requires Valid() && k < |types|
      modifies this
      ensures Valid() && Grows() && j == TypeJson(types, k)
      decreases k + 1, 0, 1
    {
      assert WellBuilt(types[k], k);
      match types[k]
      case Builtin(kind, name) =>
        j := JObject([("class", JString("builtin")), ("builtinKind", JString(kind)), ("name", JString(name))]);
      case Pointer(q) =>
        var pointee := ConvertQualTypeToJson(q);
        j := JObject([("class", JString("pointer")), ("pointeeType", pointee)]);
      case ConstantArray(size, q) =>
        var element := ConvertQualTypeToJson(q);
        j := JObject([("class", JString("array")), ("arrayKind", JString("constant")), ("size", JNumber(size)),
                      ("elementType", element)]);
      case VariableArray(q) =>
        var element := ConvertQualTypeToJson(q);
        j := JObject([("class", JString("array")), ("arrayKind", JString("variable")), ("sizeExpr", JNull),
                      ("elementType", element)]);
      case IncompleteArray(q) =>
        var element := ConvertQualTypeToJson(q);
        j := JObject([("class", JString("array")), ("arrayKind", JString("incomplete")), ("elementType", element)]);
      case Record(name, _) =>
        j := JObject([("class", JString("record")), ("recordKind", JString("struct")), ("name", JString(name))]);
      case Enum(name) =>
        j := JObject([("class", JString("enum")), ("name", JString(name))]);
      case FunctionProto(_, _) =>
        j := VisitFunctionProto(k);
      case FunctionNoProto(q) =>
        var returnType := ConvertQualTypeToJson(q);
        j := JObject([("class", JString("function")), ("functionKind", JString("no_proto")),
                      ("returnType", returnType)]);
      case OtherType =>
        j := JNull;
    }

    /** The loop over the parameter types. */
    method VisitParams(k: nat, params: seq<QualType>) returns (paramTypes: seq<Json>)
      requires Valid() && k < |types| && forall i :: 0 <= i < |params| ==> Before(params[i], k)
      modifies this
      ensures Valid() && Grows() && paramTypes == ParamsJson(types, params, k)
      decreases k + 1, 0, 0, 0
    {
      paramTypes := [];
      for i := 0 to |params|
        invariant Valid() && Grows() && paramTypes == ParamsJson(types, params[..i], k)
      {
        var p := ConvertQualTypeToJson(params[i]);
        assert params[..i + 1][..i] == params[..i];
        paramTypes := paramTypes + [p];
      }
      assert params[..|params|] == params;
    }

    method VisitFunctionProto(k: nat) returns (j: Json)
      requires Valid() && k < |types| && types[k].FunctionProto?
      modifies this
      ensures Valid() && Grows() && j == TypeJson(types, k)
      decreases k + 1, 0, 0
    {
      assert WellBuilt(types[k], k);
      var params := types[k].params;
      var returnType := ConvertQualTypeToJson(types[k].returns_);
      var paramTypes := VisitParams(k, params);
      j := JObject([("class", JString("function")), ("functionKind", JString("proto")),
                    ("returnType", returnType), ("paramTypes", JArray(paramTypes))]);
    }
  }
}
