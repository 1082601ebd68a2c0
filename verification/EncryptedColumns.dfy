/** The column types EncryptedString and EncryptedNullableString: encryption on the way in and out, NULL for "". */
module EncryptedColumns {
  import opened Options
  import opened Bytes
  import opened Encryption

  /** What a driver hands over: NULL, a string, a byte slice, or some other type. */
  datatype Column = Null | Text(data: bytes) | Blob(data: bytes) | Foreign

  datatype ColumnError = Unsupported | Crypto(error: Error)
  datatype Outcome<+T> = Fine(value: T) | Failed(error: ColumnError)

  /** The Go values: "" and the pair of a string with its validity. */
  datatype Nullable = Nullable(text: bytes, valid: bool)

  // ---------- writing ----------

  function EncryptText(p: Primitives, key: Option<bytes>, nonce: Option<bytes>, text: bytes): Outcome<Column> {
    match EncryptSpec(p, key, nonce, text)
    case Ok(encrypted) => Fine(Text(encrypted))
    case Err(error) => Failed(Crypto(error))
  }

  function StringValue(p: Primitives, key: Option<bytes>, nonce: Option<bytes>, e: bytes): Outcome<Column> {
    if e == [] then Fine(Null) else EncryptText(p, key, nonce, e)
  }

  function NullableValue(p: Primitives, key: Option<bytes>, nonce: Option<bytes>, e: Nullable): Outcome<Column> {
    if !e.valid || e.text == [] then Fine(Null) else EncryptText(p, key, nonce, e.text)
  }

  // ---------- reading ----------

  class EncryptedString {
    const p: Primitives
    var text: bytes

    constructor (p: Primitives, text: bytes)
      ensures this.p == p && this.text == text
    {
      this.p, this.text := p, text;
    }

    method Value(key: Option<bytes>, nonce: Option<bytes>) returns (column: Outcome<Column>)
      ensures column == StringValue(p, key, nonce, text)
    {
      if text == [] {
        return Fine(Null);
      }
      return EncryptText(p, key, nonce, text);
    }

    /** Writes the scanned value through the receiver; on an error the receiver keeps its value. */
    method Scan(key: Option<bytes>, value: Column) returns (error: Option<ColumnError>)
      requires Lawful(p)
      modifies `text
      ensures match StringScan(p, key, value)
              case Fine(scanned) => error == None && text == scanned
              case Failed(e) => error == Some(e) && text == old(text)
    {
      if value.Null? {
        text := [];
        return None;
      }
      if value.Foreign? {
        return Some(Unsupported);
      }
      var encrypted := value.data;
      if encrypted == [] {
        text := [];
        return None;
      }
      var decrypted := DecryptSpec(p, key, encrypted);
      if decrypted.Err? {
        return Some(Crypto(decrypted.error));
      }
      text := decrypted.value;
      return None;
    }
  }

  function StringScan(p: Primitives, key: Option<bytes>, value: Column): Outcome<bytes>
    requires Lawful(p)
  {
    match value
    case Null => Fine([])
    case Foreign => Failed(Unsupported)
    case _ =>
      if value.data == [] then Fine([])
      else
        match DecryptSpec(p, key, value.data)
        case Ok(plain) => Fine(plain)
        case Err(error) => Failed(Crypto(error))
  }

  function NullableScan(p: Primitives, key: Option<bytes>, value: Column): Outcome<Nullable>
    requires Lawful(p)
  {
    match value
    case Null => Fine(Nullable([], false))
    case Foreign => Failed(Unsupported)
    case _ =>
      if value.data == [] then Fine(Nullable([], false))
      else
        match DecryptSpec(p, key, value.data)
        case Ok(plain) => Fine(Nullable(plain, true))
        case Err(error) => Failed(Crypto(error))
  }

  class EncryptedNullableString {
    const p: Primitives
    var text: bytes
    var valid: bool

    ghost function View(): Nullable
      reads this
    {
      Nullable(text, valid)
    }

    constructor (p: Primitives, e: Nullable)
      ensures this.p == p && View() == e
    {
      this.p, text, valid := p, e.text, e.valid;
    }

    method Value(key: Option<bytes>, nonce: Option<bytes>) returns (column: Outcome<Column>)
      ensures column == NullableValue(p, key, nonce, View())
    {
      if !valid || text == [] {
        return Fine(Null);
      }
      return EncryptText(p, key, nonce, text);
    }

    method Scan(key: Option<bytes>, value: Column) returns (error: Option<ColumnError>)
      requires Lawful(p)
      modifies this
      ensures match NullableScan(p, key, value)
              case Fine(scanned) => error == None && View() == scanned
              case Failed(e) => error == Some(e) && View() == old(View())
    {
      if value.Null? {
        text, valid := [], false;
        return None;
      }
      if value.Foreign? {
        return Some(Unsupported);
      }
      var encrypted := value.data;
      if encrypted == [] {
        text, valid := [], false;
        return None;
      }
      var decrypted := DecryptSpec(p, key, encrypted);
      if decrypted.Err? {
        return Some(Crypto(decrypted.error));
      }
      text, valid := decrypted.value, true;
      return None;
    }

    method Set(s: bytes)
      modifies this
      ensures View() == Nullable(s, true)
    {
      text, valid := s, true;
    }

    method Clear()
      modifies this
      ensures View() == Nullable([], false)
    {
      text, valid := [], false;
    }
  }

  // ---------- every outcome ----------

  /** What scanning gives for every column: the empty value for NULL and for no bytes at all, an error for a foreign
      type, and otherwise whatever Decrypt gives, its error included. */
  lemma ScanOutcome(p: Primitives, key: Option<bytes>, value: Column)
    requires Lawful(p)
    ensures value.Foreign? ==>
              StringScan(p, key, value) == Failed(Unsupported) && NullableScan(p, key, value) == Failed(Unsupported)
    ensures value.Null? || (!value.Foreign? && value.data == []) ==>
              StringScan(p, key, value) == Fine([]) && NullableScan(p, key, value) == Fine(Nullable([], false))
    ensures (value.Text? || value.Blob?) && value.data != [] ==>
              var decrypted := DecryptSpec(p, key, value.data);
              && (forall plain :: decrypted == Ok(plain) ==>
                    StringScan(p, key, value) == Fine(plain) &&
                    NullableScan(p, key, value) == Fine(Nullable(plain, true)))
              && (forall error :: decrypted == Err(error) ==>
                    StringScan(p, key, value) == Failed(Crypto(error)) &&
                    NullableScan(p, key, value) == Failed(Crypto(error)))
  {
    hide DecryptSpec;
  }

  /** Writing fails exactly when there is something to encrypt and Encrypt fails, and then with its error. */
  lemma ValueOutcome(
    p: Primitives, key: Option<bytes>, nonce: Option<bytes>, text: bytes, valid: bool, error: ColumnError)
    ensures StringValue(p, key, nonce, text) == Failed(error)
      <==> text != [] && error.Crypto? && EncryptSpec(p, key, nonce, text) == Err(error.error)
    ensures NullableValue(p, key, nonce, Nullable(text, valid)) == Failed(error)
      <==> valid && text != [] && error.Crypto? && EncryptSpec(p, key, nonce, text) == Err(error.error)
  {
  }

  // ---------- round trips ----------

  /** The bytes of a column are the same whether the driver returns a string or a byte slice. */
  function AsBlob(c: Column): Column {
    if c.Text? then Blob(c.data) else c
  }

  /** Writing and reading an EncryptedString is the identity, through NULL for the empty string. */
  lemma StringRoundTrip(p: Primitives, key: bytes, nonce: bytes, e: bytes)
    requires Lawful(p) && |key| == KEY_SIZE && |nonce| == NONCE_SIZE
    ensures var column := StringValue(p, Some(key), Some(nonce), e);
            && column.Fine? && (column.value == Null <==> e == [])
            && StringScan(p, Some(key), column.value) == Fine(e)
            && StringScan(p, Some(key), AsBlob(column.value)) == Fine(e)
  {
  }

  /** Writing and reading an EncryptedNullableString keeps a valid non-empty value and turns all others into NULL. */
  lemma NullableRoundTrip(p: Primitives, key: bytes, nonce: bytes, e: Nullable)
    requires Lawful(p) && |key| == KEY_SIZE && |nonce| == NONCE_SIZE
    ensures var column := NullableValue(p, Some(key), Some(nonce), e);
            var read := if e.valid && e.text != [] then e else Nullable([], false);
            && column.Fine? && (column.value == Null <==> read != e || !e.valid)
            && NullableScan(p, Some(key), column.value) == Fine(read)
            && NullableScan(p, Some(key), AsBlob(column.value)) == Fine(read)
  {
  }
}
