/** The command identifiers of the reader protocol (UhfPrimeCommand). */
module Commands {

  import opened Wrappers

  datatype Command =
    | InventoryIsoContinue
    | InventoryStop
    | ModuleInit
    | Reboot
    | SetPower
    | SetProtocol
    | SetGetNetworkParameters
    | GetDeviceInfo
    | SetAllParameters
    | GetAllParameters
    | RelayControl

  /** The 16-bit code each command is sent with. Every code fits in one
      byte, so the high byte of the command field is always zero. */
  function Code(c: Command): (code: bv16)
    ensures code < 0x100
    ensures code != 0
  {
    match c
    case InventoryIsoContinue => 0x0001
    case InventoryStop => 0x0002
    case ModuleInit => 0x0050
    case Reboot => 0x0052
    case SetPower => 0x0053
    case SetProtocol => 0x0059
    case SetGetNetworkParameters => 0x0064
    case GetDeviceInfo => 0x0070
    case SetAllParameters => 0x0071
    case GetAllParameters => 0x0072
    case RelayControl => 0x0077
  }

  /** The command a received code stands for, if any: the cast from the
      wire's ushort back to the enumeration. */
  function FromCode(code: bv16): (c: Option<Command>)
    ensures c.Some? ==> Code(c.value) == code
  {
    if code == 0x0001 then Some(InventoryIsoContinue)
    else if code == 0x0002 then Some(InventoryStop)
    else if code == 0x0050 then Some(ModuleInit)
    else if code == 0x0052 then Some(Reboot)
    else if code == 0x0053 then Some(SetPower)
    else if code == 0x0059 then Some(SetProtocol)
    else if code == 0x0064 then Some(SetGetNetworkParameters)
    else if code == 0x0070 then Some(GetDeviceInfo)
    else if code == 0x0071 then Some(SetAllParameters)
    else if code == 0x0072 then Some(GetAllParameters)
    else if code == 0x0077 then Some(RelayControl)
    else None
  }

  /** Every command is recovered from its code, so the eleven codes are
      pairwise distinct. */
  lemma CodeRoundTrip(c: Command)
    ensures FromCode(Code(c)) == Some(c)
  {
  }

  lemma CodesDistinct(a: Command, b: Command)
    ensures Code(a) == Code(b) ==> a == b
  {
    CodeRoundTrip(a);
    CodeRoundTrip(b);
  }
}
