/** The runtime-typed table model every part of the engine works on: columns with a
    data type and a parameter direction, values carrying an optional rule, rows of
    values aligned with the columns, and tables. Also the error kinds the engine raises
    and the result type that carries them. */
module Domain {
  import opened Text

  datatype Option<+T> = None | Some(value: T)

  /** The exceptions the engine raises, by kind. `Failure` is a runtime exception carrying a message
      key; `PrivilegeError` is the procedure exception `msg.PrivilegeError %<procedure>`;
      `TableException` and `Rethrown` wrap the exception that caused them. */
  datatype Error =
    | IllegalArgument(message: string)
    | PermissionDenied(target: string)
    | InsufficientColumnAccess(table: string)
    | NullReference
    | IndexOutOfBounds
    | Failure(message: string)
    | PrivilegeError(procedure: string)
    | TableException(cause: Error)
    | Rethrown(cause: Error)

  datatype Result<+T> = Ok(value: T) | Err(error: Error) {
    predicate IsFailure() {
      Err?
    }

    function PropagateFailure<U>(): Result<U>
      requires Err?
    {
      Err(error)
    }

    function Extract(): T
      requires Ok?
    {
      value
    }
  }

  datatype DataType = STRING | INTEGER | LONG | DOUBLE | BOOLEAN | INSTANT | ZONED | BIGDECIMAL

  /** The direction of a procedure parameter. */
  datatype OutputType = INPUT | OUTPUT

  datatype Column = Column(name: string, dataType: DataType, outputType: OutputType)

  /** The payload of a value, one alternative per data type. Floating-point numbers,
      instants, zoned date-times and decimals are carried by their `toString` text:
      the engine only ever renders or binds them as text. */
  datatype Data =
    | StringData(s: string)
    | IntegerData(i: int)
    | LongData(l: int)
    | BooleanData(b: bool)
    | DoubleData(text: string)
    | InstantData(text: string)
    | ZonedData(text: string)
    | DecimalData(text: string)

  /** A value and its optional rule (`in`, `between`, `null`, `!null` or a comparison operator). */
  datatype Value = Value(data: Data, rule: Option<string>)

  /** `None` stands for a Java `null` in the value list. */
  datatype Row = Row(values: seq<Option<Value>>)

  datatype MetaData = MetaData(page: Option<int>, limited: Option<int>)

  datatype Table = Table(name: string, columns: seq<Column>, rows: seq<Row>, metaData: Option<MetaData>)

  /** One row of the privilege store: the privilege (view or procedure name), the security
      token that holds it, and whether row-level security applies to that pairing. */
  datatype Grant = Grant(privilege: string, token: string, rowLevelSecurity: bool)

  /** The reserved column whose boolean value joins a search row with AND instead of OR. */
  const AND_FIELD_NAME: string := "&"

  /** The name of the column that carries a row's security token. */
  const SECURITY_TOKEN_COLUMN: string := "SecurityToken"

  /** Every row has exactly one value per column. */
  predicate WellFormed(t: Table) {
    forall r :: r in t.rows ==> |r.values| == |t.columns|
  }

  /** No row has more values than there are columns (the weaker shape the search code tolerates). */
  predicate RowsFit(t: Table) {
    forall r :: r in t.rows ==> |r.values| <= |t.columns|
  }

  /** `String.valueOf` of the payload, as used when a value is concatenated with `""` or trimmed. */
  function ValueText(d: Data): string {
    match d
    case StringData(s) => s
    case IntegerData(i) => IntToString(i)
    case LongData(l) => IntToString(l)
    case BooleanData(b) => if b then "true" else "false"
    case DoubleData(t) => t
    case InstantData(t) => t
    case ZonedData(t) => t
    case DecimalData(t) => t
  }

  /** `Value.getStringValue`: the string payload, `None` (Java `null`) for any other payload. */
  function StringValueOf(v: Value): Option<string> {
    if v.data.StringData? then Some(v.data.s) else None
  }

  /** The string rendering of a number never contains a separator, a wildcard or a placeholder. */
  lemma NumberTextIsPlain(i: int)
    ensures ',' !in IntToString(i) && '%' !in IntToString(i) && '?' !in IntToString(i)
    ensures Trim(IntToString(i)) != ""
  {
    var r := IntToString(i);
    if i < 0 {
      assert r[0] == '-';
      assert r[|r| - 1] in NatToString(-i);
    } else {
      assert '0' <= r[0] <= '9';
    }
  }
}
