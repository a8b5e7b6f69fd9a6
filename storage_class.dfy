/**
 * The SQLite storage class chosen for a key or value column from the C++ type
 * the codec stores, and its spelling in the CREATE TABLE statement.
 */
module StorageClass {
  import opened Wrappers

  datatype SqliteStorageClass = INTEGER | REAL | TEXT | BLOB

  /** The kinds of C++ type a codec can hand to SQLite. */
  datatype NativeType =
    | Integral        // bool, char, int, long, ...
    | FloatingPoint   // float, double
    | StdString
    | ConstCharPtr
    | Blob            // std::vector<std::byte>
    | NullPtr         // std::nullptr_t
    | Unsupported     // anything else

  /** has_native_sqlite_support: the types an identity codec may use. */
  predicate HasNativeSupport(t: NativeType) {
    t == Integral || t == FloatingPoint || t == StdString || t == NullPtr || t == Blob
  }

  /**
   * sqlite_storage_class_from_type. None where the C++ function falls off its
   * end without a return (std::nullptr_t and unsupported types).
   */
  function StorageClassFromType(t: NativeType): (sc: Option<SqliteStorageClass>)
    ensures sc.Some? <==> t in {Integral, FloatingPoint, StdString, ConstCharPtr, Blob}
    ensures sc == Some(TEXT) <==> t == StdString || t == ConstCharPtr
    ensures sc == Some(INTEGER) <==> t == Integral
    ensures sc == Some(REAL) <==> t == FloatingPoint
    ensures sc == Some(BLOB) <==> t == Blob
  {
    match t
    case Integral => Some(INTEGER)
    case FloatingPoint => Some(REAL)
    case StdString => Some(TEXT)
    case ConstCharPtr => Some(TEXT)
    case Blob => Some(BLOB)
    case NullPtr => None
    case Unsupported => None
  }

  /** codecs::to_string(sqlite_storage_class); the "UNKOWN" fallback is unreachable. */
  function ToString(sc: SqliteStorageClass): (s: string)
    ensures sc == INTEGER <==> s == "INTEGER"
    ensures sc == REAL <==> s == "REAL"
    ensures sc == TEXT <==> s == "TEXT"
    ensures sc == BLOB <==> s == "BLOB"
  {
    match sc
    case INTEGER => "INTEGER"
    case REAL => "REAL"
    case TEXT => "TEXT"
    case BLOB => "BLOB"
  }

  /** Each storage class has its own name. */
  lemma ToStringInjective(a: SqliteStorageClass, b: SqliteStorageClass)
    requires ToString(a) == ToString(b)
    ensures a == b
  {
  }

  /**
   * std::nullptr_t is accepted by the identity codecs but has no storage class:
   * the one supported type the mapping misses.
   */
  lemma NullPtrHasNoStorageClass()
    ensures HasNativeSupport(NullPtr) && StorageClassFromType(NullPtr).None?
    ensures forall t :: HasNativeSupport(t) && t != NullPtr ==> StorageClassFromType(t).Some?
  {
  }
}
