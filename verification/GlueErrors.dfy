// The error codes that cross the glue: lwIP 1.4 codes of the Espressif blobs, the
// glue's own codes, and lwIP 2 codes, with the four translations between them.

module GlueErrors {
  import opened Machine

  // lwIP 2's codes by name; their values belong to lwIP.
  datatype LwipErr =
    | Ok | Mem | Buf | Timeout | Rte | InProgress | Val | WouldBlock | Use
    | Already | IsConn | Conn | If | Abrt | Rst | Clsd | Arg | Other(code: int)

  // lwIP 1.4's codes.
  const ESP_OK := 0
  const ESP_ABRT := -8

  const GLUE_OK := 0
  const GLUE_MEM := -1
  const GLUE_ALREADY := -9
  const GLUE_IF := -12
  const GLUE_ABRT := -13

  function Esp2GlueErr(err: int): int {
    match err
    case 0 => GLUE_OK
    case -1 => GLUE_MEM
    case -2 => -2                // BUF
    case -3 => -3                // TIMEOUT
    case -4 => -4                // RTE
    case -5 => -5                // INPROGRESS
    case -6 => -6                // VAL
    case -7 => -7                // WOULDBLOCK
    case -8 => GLUE_ABRT
    case -9 => -14               // RST
    case -10 => -15              // CLSD
    case -11 => -11              // CONN
    case -12 => -16              // ARG
    case -13 => -8               // USE
    case -14 => GLUE_IF
    case -15 => -10              // ISCONN
    case _ => GLUE_ABRT
  }

  function Glue2EspErr(err: int): int {
    match err
    case 0 => ESP_OK
    case -1 => -1                // MEM
    case -2 => -2                // BUF
    case -3 => -3                // TIMEOUT
    case -4 => -4                // RTE
    case -5 => -5                // INPROGRESS
    case -6 => -6                // VAL
    case -7 => -7                // WOULDBLOCK
    case -13 => ESP_ABRT
    case -14 => -9               // RST
    case -15 => -10              // CLSD
    case -11 => -11              // CONN
    case -16 => -12              // ARG
    case -8 => -13               // USE
    case -12 => -14              // IF
    case -10 => -15              // ISCONN
    case -9 => ESP_ABRT          // ALREADY has no counterpart
    case _ => ESP_ABRT
  }

  function Glue2GitErr(err: int): LwipErr {
    match err
    case 0 => Ok
    case -1 => Mem
    case -2 => Buf
    case -3 => Timeout
    case -4 => Rte
    case -5 => InProgress
    case -6 => Val
    case -7 => WouldBlock
    case -8 => Use
    case -9 => Already
    case -10 => IsConn
    case -11 => Conn
    case -12 => If
    case -13 => Abrt
    case -14 => Rst
    case -15 => Clsd
    case -16 => Arg
    case _ => Abrt
  }

  function Git2GlueErr(err: LwipErr): int {
    match err
    case Ok => GLUE_OK
    case Mem => GLUE_MEM
    case Buf => -2
    case Timeout => -3
    case Rte => -4
    case InProgress => -5
    case Val => -6
    case WouldBlock => -7
    case Use => -8
    case Already => GLUE_ALREADY
    case IsConn => -10
    case Conn => -11
    case If => GLUE_IF
    case Abrt => GLUE_ABRT
    case Rst => -14
    case Clsd => -15
    case Arg => -16
    case Other(_) => GLUE_ABRT
  }

  // The code lwIP 1.4 gives an error that lwIP 2 knows by the same name.
  function EspCode(name: LwipErr): Option<int> {
    match name
    case Ok => Some(0)
    case Mem => Some(-1)
    case Buf => Some(-2)
    case Timeout => Some(-3)
    case Rte => Some(-4)
    case InProgress => Some(-5)
    case Val => Some(-6)
    case WouldBlock => Some(-7)
    case Abrt => Some(-8)
    case Rst => Some(-9)
    case Clsd => Some(-10)
    case Conn => Some(-11)
    case Arg => Some(-12)
    case Use => Some(-13)
    case If => Some(-14)
    case IsConn => Some(-15)
    case Already => None
    case Other(_) => None
  }

  // lwIP 2 sees the blob's code under its name, and foreign codes as ABRT.
  ghost predicate SeenAs(esp: int, git: LwipErr) {
    EspCode(git) == Some(esp) || ((esp < -15 || esp > 0) && git == Abrt)
  }

  // EVERY CODE KEEPS ITS NAME across the glue, both ways.
  lemma NamesCross(esp: int, git: LwipErr)
    ensures SeenAs(esp, Glue2GitErr(Esp2GlueErr(esp)))
    ensures EspCode(git).Some? ==> Glue2EspErr(Git2GlueErr(git)) == EspCode(git).value
    ensures EspCode(git).None? ==> Glue2EspErr(Git2GlueErr(git)) == -8
  {
    if esp < -15 || esp > 0 {
      assert Esp2GlueErr(esp) == GLUE_ABRT;
    }
  }

  lemma EspOk(esp: int)
    ensures Esp2GlueErr(esp) == GLUE_OK <==> esp == ESP_OK
  {}

  lemma GitOk(glue: int)
    ensures Glue2GitErr(glue) == Ok <==> glue == GLUE_OK
  {}

  // Success crosses the glue as success and nothing else does, both ways.
  lemma OnlyOkIsOk(esp: int, git: LwipErr)
    ensures Glue2GitErr(Esp2GlueErr(esp)) == Ok <==> esp == ESP_OK
    ensures Glue2EspErr(Git2GlueErr(git)) == ESP_OK <==> git == Ok
  {
    if esp < -15 || esp > 0 {
      assert Esp2GlueErr(esp) == GLUE_ABRT;
    }
  }

  // A blob's error is not distorted: what lwIP 2 sees goes back as the same code.
  lemma EspRoundTrip(esp: int)
    ensures Glue2EspErr(Git2GlueErr(Glue2GitErr(Esp2GlueErr(esp)))) == if -15 <= esp <= 0 then esp else ESP_ABRT
  {
    if esp < -15 || esp > 0 {
      assert Esp2GlueErr(esp) == GLUE_ABRT;
    }
  }

  // The other way exactly ALREADY and foreign codes are lost: both become ABRT.
  lemma GitRoundTripIff(git: LwipErr)
    ensures Glue2GitErr(Esp2GlueErr(Glue2EspErr(Git2GlueErr(git)))) == git <==> git != Already && !git.Other?
  {}
}
