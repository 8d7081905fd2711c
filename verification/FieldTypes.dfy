/** Column types and their codes in the protocol. */
module FieldTypes {
  import opened Options

  datatype FieldType =
    | Decimal | Tiny | Short | Long | Float | Double | NULL | Timestamp | LongLong | Int24 | Date | Time | DateTime
    | Year | NewDate | VarChar | Bit | Uint8 | Uint16 | Uint24 | Uint32 | Uint64 | JSON | NewDecimal | Enum | Set
    | TinyBLOB | MediumBLOB | LongBLOB | BLOB | VarString | String | Geometry

  const UNSIGNED := 0x20
  const BINARY := 0x80

  /** Bit 5 of the flags. */
  predicate HasUnsignedFlag(flags: nat) {
    flags / UNSIGNED % 2 == 1
  }

  /** The type table, by protocol code. */
  function Named(code: nat): Option<FieldType> {
    match code
    case 0 => Some(Decimal) case 1 => Some(Tiny) case 2 => Some(Short) case 3 => Some(Long) case 4 => Some(Float)
    case 5 => Some(Double) case 6 => Some(NULL) case 7 => Some(Timestamp) case 8 => Some(LongLong) case 9 => Some(Int24)
    case 10 => Some(Date) case 11 => Some(Time) case 12 => Some(DateTime) case 13 => Some(Year) case 14 => Some(NewDate)
    case 15 => Some(VarChar) case 16 => Some(Bit) case 17 => Some(Timestamp) case 18 => Some(DateTime) case 19 => Some(Time)
    case 245 => Some(JSON) case 246 => Some(Decimal) case 247 => Some(Enum) case 248 => Some(Set) case 249 => Some(TinyBLOB)
    case 250 => Some(MediumBLOB) case 251 => Some(LongBLOB) case 252 => Some(BLOB) case 253 => Some(VarString)
    case 254 => Some(String) case 255 => Some(Geometry)
    case _ => None
  }

  /** The integer types come in two forms, told apart by the unsigned flag. */
  function Modify(t: FieldType, flags: nat): FieldType {
    if !HasUnsignedFlag(flags) then t
    else match t
         case Tiny => Uint8
         case Short => Uint16
         case Long => Uint32
         case LongLong => Uint64
         case Int24 => Uint24
         case _ => t
  }

  function MySQLToType(code: nat, flags: nat): Option<FieldType> {
    var t := Named(code);
    if t.None? then None else Some(Modify(t.value, flags))
  }

  datatype Code = Code(typ: nat, flags: nat)

  /** Code and flags of a type; zero for a type the table does not list. */
  function TypeToMySQL(t: FieldType): (c: Code)
    ensures c.typ < 256 && c.flags < 0x1_0000
  {
    match t
    case Tiny => Code(1, 0) case Uint8 => Code(1, UNSIGNED)
    case Short => Code(2, 0) case Uint16 => Code(2, UNSIGNED)
    case Long => Code(3, 0) case Uint32 => Code(3, UNSIGNED)
    case Float => Code(4, 0) case Double => Code(5, 0)
    case NULL => Code(6, BINARY) case Timestamp => Code(7, 0)
    case LongLong => Code(8, 0) case Uint64 => Code(8, UNSIGNED)
    case Int24 => Code(9, 0) case Uint24 => Code(9, UNSIGNED)
    case Date => Code(10, BINARY) case Time => Code(11, BINARY) case DateTime => Code(12, BINARY)
    case Year => Code(13, UNSIGNED) case Bit => Code(16, UNSIGNED)
    case JSON => Code(245, 0) case Decimal => Code(246, 0) case Enum => Code(247, 0) case Set => Code(248, 0)
    case TinyBLOB => Code(249, 0) case MediumBLOB => Code(250, 0) case LongBLOB => Code(251, 0) case BLOB => Code(252, 0)
    case VarString => Code(253, 0) case String => Code(254, 0) case Geometry => Code(255, 0)
    case NewDate => Code(0, 0) case VarChar => Code(0, 0) case NewDecimal => Code(0, 0)
  }

  predicate Tabled(t: FieldType) {
    t !in {NewDate, VarChar, NewDecimal}
  }

  predicate Unsigned(t: FieldType) {
    t in {Uint8, Uint16, Uint24, Uint32, Uint64}
  }

  predicate Integral(t: FieldType) {
    Unsigned(t) || t in {Tiny, Short, Int24, Long, LongLong}
  }

  /** The form of a type that its code alone denotes. */
  function Base(t: FieldType): FieldType {
    match t
    case Uint8 => Tiny case Uint16 => Short case Uint24 => Int24 case Uint32 => Long case Uint64 => LongLong
    case NewDate => Decimal case VarChar => Decimal case NewDecimal => Decimal
    case _ => t
  }

  lemma {:induction false} NamedBase(t: FieldType)
    ensures Named(TypeToMySQL(t).typ) == Some(Base(t))
  {
  }

  /** A type comes back from its code exactly when the table lists it and the flags agree with its sign. */
  lemma {:induction false} TypeRecovered(t: FieldType, flags: nat)
    ensures MySQLToType(TypeToMySQL(t).typ, flags) == Some(Modify(Base(t), flags))
    ensures Modify(Base(t), flags) == t <==> Tabled(t) && (Integral(t) ==> HasUnsignedFlag(flags) == Unsigned(t))
  {
    NamedBase(t);
    match Base(t) {
      case Tiny => case Short => case Long => case LongLong => case Int24 => case _ =>
    }
  }

  /** The unsigned flag is the bit of value 32. */
  lemma {:induction false} UnsignedFlag(flags: nat)
    ensures HasUnsignedFlag(flags) <==> flags % 64 >= 32
  {
  }

  /** The flags of a type: 32 for the unsigned integers, years and bits, 128 for NULL and dates, none otherwise. */
  lemma {:induction false} TypeFlags(t: FieldType)
    ensures TypeToMySQL(t).flags ==
            if t in {Uint8, Uint16, Uint24, Uint32, Uint64, Year, Bit} then 32
            else if t in {NULL, Date, Time, DateTime} then 128
            else 0
  {
  }

  /** With the flags of its own, every type that the table lists comes back. */
  lemma {:induction false} OwnFlagsSuffice(t: FieldType)
    ensures MySQLToType(TypeToMySQL(t).typ, TypeToMySQL(t).flags) == Some(t) <==> Tabled(t)
  {
    TypeRecovered(t, TypeToMySQL(t).flags);
    TypeFlags(t);
    UnsignedFlag(TypeToMySQL(t).flags);
  }

  /** The codes that are known, and those among them that no type is sent with. */
  lemma {:induction false} KnownCodes(code: nat)
    ensures Named(code).Some? <==> code <= 19 || 245 <= code <= 255
    ensures Named(0) == Named(246) == Some(Decimal) && Named(14) == Some(NewDate) && Named(15) == Some(VarChar)
    ensures Named(17) == Some(Timestamp) && Named(18) == Some(DateTime) && Named(19) == Some(Time)
  {
  }
}
