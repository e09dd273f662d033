/** The message that travels from the MQTT callback to the database. */
module Messages {

  /** The target's `int`. */
  type int32 = x: int | -0x8000_0000 <= x < 0x8000_0000

  datatype Option<+T> = None | Some(value: T)

  datatype RegisterItem = RegisterItem(address: int32, mapAddr: int32, value: int32, description: string)

  datatype Msg = Msg(
    id: int32,
    channel: int32,
    pduAddr: int32,
    pduFunc: int32,
    pduData: string,
    timestamp: string,
    registerMap: seq<RegisterItem>)

  const EMPTY_MSG := Msg(0, 0, 0, 0, "", "", [])

  /** What survives of a std::string (one char per byte) that is handed on as a C string. */
  function CStr(s: string): (r: string)
    ensures r <= s && '\0' !in r
    ensures r == s <==> '\0' !in s
    ensures r != s ==> s[|r|] == '\0'
  {
    if s == [] || s[0] == '\0' then [] else [s[0]] + CStr(s[1..])
  }
}
