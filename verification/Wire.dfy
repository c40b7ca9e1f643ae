/** The reading cursor and the growing output buffer that the codec works on,
    and the results of parsing. */
module Wire {
  import opened Bytes

  /** What a message was too short for. */
  datatype Short = HeaderOctets | QuestionFixed | RecordFixed | Rdata | NameEnd | PointerOctet | LabelOctets

  datatype BadName = PointerLoop | LabelNotUtf8

  /** Why an upstream gave no reply; the network's own errors are told apart by a code. */
  datatype Upstream = NoneConfigured | NoneAttempted | BadLength | Network(code: nat)

  datatype DnsError =
    | BufferTooShort(what: Short)
    | InvalidDomainName(why: BadName)
    | ParseError(cause: Upstream)

  /** The result of a parsing method.  `Panicked` is the abort of a task whose
      cursor was asked for octets it does not have. */
  datatype Outcome<+T> = Ok(value: T) | Err(error: DnsError) | Panicked {
    predicate IsFailure() { !Ok? }

    function PropagateFailure<U>(): Outcome<U>
      requires IsFailure()
    {
      if Err? then Err(error) else Panicked
    }

    function Extract(): T
      requires !IsFailure()
    {
      value
    }
  }

  /** The result of a parser as a function of message and offset: the value and
      the offset where the cursor is left. */
  datatype Parsed<+T> = Done(value: T, next: nat) | Fail(error: DnsError) | Abort {
    predicate IsFailure() { !Done? }

    function PropagateFailure<U>(): Parsed<U>
      requires IsFailure()
    {
      if Fail? then Fail(error) else Abort
    }

    function Extract(): (T, nat)
      requires !IsFailure()
    {
      (value, next)
    }
  }

  /** A parsing method that returned `r` with its cursor at `pos` did what `spec`
      says.  After a failure nobody looks at the cursor again. */
  ghost predicate Agrees<T>(r: Outcome<T>, pos: nat, spec: Parsed<T>) {
    match spec
    case Done(v, next) => r == Ok(v) && pos == next
    case Fail(e) => r == Err(e)
    case Abort => r == Panicked
  }

  class Cursor {
    const data: seq<byte>
    var pos: nat

    constructor (data: seq<byte>)
      ensures this.data == data && pos == 0
    {
      this.data := data;
      pos := 0;
    }

    function Remaining(): nat
      reads this
    {
      if pos <= |data| then |data| - pos else 0
    }

    method SetPosition(p: nat)
      modifies this
      ensures pos == p
    {
      pos := p;
    }

    method GetU8() returns (b: byte)
      requires Remaining() >= 1
      modifies this
      ensures pos == old(pos) + 1 && b == data[old(pos)]
    {
      b := data[pos];
      pos := pos + 1;
    }

    method GetU16() returns (n: u16)
      requires Remaining() >= 2
      modifies this
      ensures pos == old(pos) + 2 && n == U16At(data, old(pos))
    {
      n := U16At(data, pos);
      pos := pos + 2;
    }

    method GetU32() returns (n: u32)
      requires Remaining() >= 4
      modifies this
      ensures pos == old(pos) + 4 && n == U32At(data, old(pos))
    {
      n := U32At(data, pos);
      pos := pos + 4;
    }

    method CopyToSlice(len: nat) returns (s: seq<byte>)
      requires pos + len <= |data|
      modifies this
      ensures pos == old(pos) + len && s == data[old(pos)..pos]
    {
      s := data[pos..pos + len];
      pos := pos + len;
    }
  }

  class Buffer {
    var bytes: seq<byte>

    constructor ()
      ensures bytes == []
    {
      bytes := [];
    }

    method PutU8(b: byte)
      modifies this
      ensures bytes == old(bytes) + [b]
    {
      bytes := bytes + [b];
    }

    method PutU16(n: u16)
      modifies this
      ensures bytes == old(bytes) + Be16(n)
    {
      bytes := bytes + Be16(n);
    }

    method PutU32(n: u32)
      modifies this
      ensures bytes == old(bytes) + Be32(n)
    {
      bytes := bytes + Be32(n);
    }

    method PutSlice(s: seq<byte>)
      modifies this
      ensures bytes == old(bytes) + s
    {
      bytes := bytes + s;
    }
  }
}
