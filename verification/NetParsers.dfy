/** Reading and writing integers in network byte order. */
module NetParsers {
  import opened MachineIntegers

  datatype ParseResult =
    NoError | BadChecksum | PacketTooShort | WrongIPVersion | HeaderTooShort | TruncatedPacket | Unsupported

  /** What is left to parse, and the first error met, which sticks. */
  datatype Input = Input(buffer: seq<byte>, error: ParseResult) {

    /** After running out of bytes every read yields zero and takes nothing. */
    function Check(n: nat): Input {
      if n > |buffer| then this.(error := PacketTooShort) else this
    }

    function Int(len: nat): nat {
      if len > |buffer| || error != NoError then 0 else BigEndian(buffer[..len])
    }

    function Drop(n: nat): Input {
      if n > |buffer| || error != NoError then Check(n) else this.(buffer := buffer[n..])
    }
  }

  function BigEndian(bytes: seq<byte>): nat {
    if bytes == [] then 0 else 256 * BigEndian(bytes[..|bytes| - 1]) + bytes[|bytes| - 1]
  }

  /** The `len` lowest bytes of `val`, highest first. */
  function Unparse(val: nat, len: nat): (bytes: seq<byte>)
    ensures |bytes| == len
  {
    if len == 0 then [] else Unparse(val / 256, len - 1) + [val % 256]
  }

  function Pow256(n: nat): (p: nat)
    ensures 0 < p
  {
    if n == 0 then 1 else 256 * Pow256(n - 1)
  }

  /** Unparsing and parsing are inverse, either way round. */
  lemma {:induction false} ParseUnparse(val: nat, len: nat)
    requires val < Pow256(len)
    ensures BigEndian(Unparse(val, len)) == val
  {
    if len > 0 {
      ParseUnparse(val / 256, len - 1);
      assert Unparse(val, len)[..len - 1] == Unparse(val / 256, len - 1);
    }
  }

  lemma {:induction false} UnparseParse(bytes: seq<byte>)
    ensures BigEndian(bytes) < Pow256(|bytes|) && Unparse(BigEndian(bytes), |bytes|) == bytes
  {
    if bytes != [] {
      UnparseParse(bytes[..|bytes| - 1]);
    }
  }

  class NetParser {
    var buffer: seq<byte>
    var error: ParseResult

    ghost function View(): Input
      reads this
    {
      Input(buffer, error)
    }

    constructor (buffer: seq<byte>)
      ensures View() == Input(buffer, NoError)
    {
      this.buffer := buffer;
      error := NoError;
    }

    method CheckSize(size: nat)
      modifies this
      ensures View() == old(View()).Check(size)
    {
      if size > |buffer| {
        error := PacketTooShort;
      }
    }

    method ParseInt(len: nat) returns (ret: nat)
      modifies this
      ensures View() == old(View()).Drop(len) && ret == old(View()).Int(len)
      ensures ret < Pow256(len)
    {
      CheckSize(len);
      if error != NoError {
        return 0;
      }
      ret := 0;
      for i := 0 to len
        invariant View() == old(View()) && ret == BigEndian(buffer[..i])
      {
        ret := ret * 256;
        ret := ret + buffer[i];
        assert buffer[..i + 1][..i] == buffer[..i];
      }
      UnparseParse(buffer[..len]);
      buffer := buffer[len..];
    }

    method RemovePrefix(n: nat)
      modifies this
      ensures View() == old(View()).Drop(n)
    {
      CheckSize(n);
      if error != NoError {
        return;
      }
      buffer := buffer[n..];
    }
  }

  /** `val` shifted right by `k` bytes. */
  function ShiftRight(val: nat, k: nat): nat {
    if k == 0 then val else ShiftRight(val, k - 1) / 256
  }

  /** Appends `val` in `len` bytes, picking them from the highest down. */
  method UnparseInt(s: seq<byte>, val: nat, len: nat) returns (s': seq<byte>)
    ensures s' == s + Unparse(val, len)
  {
    s' := s;
    for i := 0 to len
      invariant s' == s + Unparse(ShiftRight(val, len - i), i)
    {
      var theByte := ShiftRight(val, len - i - 1) % 256;
      s' := s' + [theByte];
    }
  }
}
