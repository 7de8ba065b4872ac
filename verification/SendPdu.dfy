/** CSMPPConnection::SendPDU: packing into a buffer that doubles until the PDU fits. */
module SendPdu {
  import opened Bytes
  import opened Frames
  import opened Tokens
  import opened Pack
  import opened RoundTrip
  import opened PackLoop

  /** The RESULT codes of a connection. */
  datatype Result = ResultOk | NetError | SysError | Timeout | InvResp

  const FIRST_SIZE := 256
  const LAST_SIZE := 4096

  /**
   * Whatever sizes are tried, what goes out is what packing once into 4096 octets gives. The socket is a parameter:
   * whether it is open, and whether asio::write throws.
   */
  method Send(command: int, tt: Struct, isOpen: bool, writeThrows: bool)
      returns (res: Result, wire: seq<byte>, attempts: nat)
    requires CommandTyped(command, tt)
    ensures attempts <= 5
    ensures res == (if !isOpen then NetError
                    else if Packed(command, tt, LAST_SIZE).None? then SysError
                    else if writeThrows then NetError
                    else ResultOk)
    ensures wire == if res == ResultOk then Packed(command, tt, LAST_SIZE).value else []
  {
    wire, attempts := [], 0;
    if !isOpen { return NetError, [], 0; }
    var size := FIRST_SIZE;
    var buffer := new byte[size](_ => 0);
    var err, len: nat, source := SmppPack(command, buffer, size, tt);
    attempts := 1;
    while err == -1 && size < LAST_SIZE
      invariant size == buffer.Length && 1 <= attempts <= 5 && fresh(buffer)
      invariant size == [256, 512, 1024, 2048, 4096][attempts - 1]
      invariant err == if Packed(command, tt, size).Some? then 0 else -1
      invariant err == 0 ==> len <= size && buffer[..len] == Packed(command, tt, size).value
      decreases LAST_SIZE - size
    {
      size := size * 2;
      buffer := new byte[size](_ => 0);
      err, len, source := SmppPack(command, buffer, size, tt);
      attempts := attempts + 1;
    }
    if err == -1 { return SysError, [], attempts; }
    LargerIsEqual(command, tt, size, LAST_SIZE);
    if writeThrows { return NetError, [], attempts; }
    return ResultOk, buffer[..len], attempts;
  }

  /** A size that is enough stays enough, with the same outcome. */
  lemma LargerIsEqual(command: int, tt: Struct, size: int, other: int)
    requires CommandTyped(command, tt)
    requires Packed(command, tt, size).Some? && size <= other
    ensures Packed(command, tt, other) == Packed(command, tt, size)
  {
    var items := Frame(command).value;
    FlattenTyped(items, tt, 0);
    PackMore(Flatten(items, tt, 0), size, other);
  }

  /** Every command that packs at all into at most 4095 octets is sent whole. */
  lemma ShortEnoughIsSent(command: int, tt: Struct, size: int)
    requires CommandTyped(command, tt) && CommandTerminated(command, tt) && Packed(command, tt, size).Some?
    ensures |Packed(command, tt, size).value| < LAST_SIZE ==>
              Packed(command, tt, LAST_SIZE) == Packed(command, tt, size)
    ensures |Packed(command, tt, size).value| > LAST_SIZE ==> Packed(command, tt, LAST_SIZE) == None
  {
    SizeIrrelevant(command, tt, size, LAST_SIZE);
  }
}
