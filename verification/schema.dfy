/** The seven wire messages. The generated code repeats one template per field; the table `Fields`
    is what differs between the copies: the arms of each `switch fieldNum`, in field order. */
module Schema {
  import opened Words

  datatype Kind =
    | OfferMsg | ContractMsg | MessageMsg
    | StorageRequestMsg | StorageResponseMsg | RetrievalRequestMsg | RetrievalResponseMsg

  datatype FieldType =
    | Str               // string
    | Int(width: Width) // uint32, int64 or an int32 enumeration
    | Bool
    | Strs              // repeated string
    | Sub(kind: Kind)   // pointer to a message

  /** Field number f has type Fields(k)[f - 1]. */
  function Fields(k: Kind): (fs: seq<FieldType>)
    ensures 1 <= |fs| <= 6
  {
    match k
    case OfferMsg => [Str, Int(U32), Int(I64), Str]
    case ContractMsg => [Str, Int(U32), Str, Int(I64), Int(U32), Int(U32)]
    case MessageMsg => [Int(I32), Sub(StorageRequestMsg), Sub(StorageResponseMsg),
                        Sub(RetrievalRequestMsg), Sub(RetrievalResponseMsg)]
    case StorageRequestMsg => [Str, Sub(ContractMsg)]
    case StorageResponseMsg => [Str, Bool]
    case RetrievalRequestMsg => [Str, Str, Int(I64), Str]
    case RetrievalResponseMsg => [Strs]
  }

  /** The value of one struct field; Nil is a nil message pointer. */
  datatype Value =
    | Text(text: seq<byte>)
    | Num(num: int)
    | Flag(flag: bool)
    | Texts(texts: seq<seq<byte>>)
    | Nil
    | Msg(msg: Record)

  /** A message struct: its fields in order, and XXX_unrecognized. */
  datatype Record = Record(fields: seq<Value>, unknown: seq<byte>)

  predicate InWidth(w: Width, n: int) { Trunc(w, n) == n }

  /** v is a value of Go type t. */
  predicate TypedValue(t: FieldType, v: Value)
    decreases v, 0
  {
    match t
    case Str => v.Text?
    case Int(w) => v.Num? && InWidth(w, v.num)
    case Bool => v.Flag?
    case Strs => v.Texts?
    case Sub(k) => v.Nil? || (v.Msg? && Typed(k, v.msg))
  }

  /** m is a struct of Go type k. */
  predicate Typed(k: Kind, m: Record)
    decreases m, 0
  {
    && |m.fields| == |Fields(k)|
    && forall j :: 0 <= j < |Fields(k)| ==> TypedValue(Fields(k)[j], m.fields[j])
  }

  /** Field number f + 1 of a message, and the payloads of a field by its type. */
  function Field(k: Kind, m: Record, f: nat): (v: Value)
    requires Typed(k, m) && f < |Fields(k)|
    ensures TypedValue(Fields(k)[f], v)
  {
    m.fields[f]
  }

  function TextOf(v: Value): seq<byte>
    requires TypedValue(Str, v)
  {
    v.text
  }

  function TextsOf(v: Value): seq<seq<byte>>
    requires TypedValue(Strs, v)
  {
    v.texts
  }

  function FlagOf(v: Value): bool
    requires TypedValue(Bool, v)
  {
    v.flag
  }

  function UintOf(v: Value): uint32
    requires TypedValue(Int(U32), v)
  {
    v.num
  }

  function Int64Of(v: Value): int64
    requires TypedValue(Int(I64), v)
  {
    v.num
  }

  function Int32Of(v: Value): int32
    requires TypedValue(Int(I32), v)
  {
    v.num
  }

  function SubOf(k: Kind, v: Value): (m: Option<Record>)
    requires TypedValue(Sub(k), v)
    ensures m.Some? ==> Typed(k, m.value)
  {
    if v.Nil? then None else Some(v.msg)
  }

  function Zero(t: FieldType): (v: Value)
    ensures TypedValue(t, v)
  {
    match t
    case Str => Text([])
    case Int(_) => Num(0)
    case Bool => Flag(false)
    case Strs => Texts([])
    case Sub(_) => Nil
  }

  /** The zero value of struct k. */
  function Fresh(k: Kind): (m: Record)
    ensures Typed(k, m)
  {
    Record(seq(|Fields(k)|, j requires 0 <= j < |Fields(k)| => Zero(Fields(k)[j])), [])
  }
}
