/** From a JSON tree to a message: what `parseModbusMsg` accepts and what it makes of it. */
module Parser {
  import opened Messages
  import opened Order
  import opened Numerals

  /** A parsed JSON text; objects hold each key once. */
  datatype Json =
    | Null
    | Bool(b: bool)
    | Int(n: int)
    | Float(r: real)
    | Str(s: string)
    | Arr(items: seq<Json>)
    | Obj(fields: map<string, Json>)

  /** `get<int>` of a wider integer: the `int` that differs from it by a multiple of 2^32. */
  function Wrap32(n: int): (r: int32)
    ensures (n - r) % 0x1_0000_0000 == 0
  {
    var r := n % 0x1_0000_0000;
    if r < 0x8000_0000 then r else r - 0x1_0000_0000
  }

  predicate HasInt(j: Json, key: string) { j.Obj? && key in j.fields && j.fields[key].Int? }

  predicate HasStr(j: Json, key: string) { j.Obj? && key in j.fields && j.fields[key].Str? }

  predicate HasArr(j: Json, key: string) { j.Obj? && key in j.fields && j.fields[key].Arr? }

  function IntAt(j: Json, key: string): int32
    requires HasInt(j, key)
  {
    Wrap32(j.fields[key].n)
  }

  function StrAt(j: Json, key: string): string
    requires HasStr(j, key)
  {
    j.fields[key].s
  }

  predicate IsAddressKey(k: string) { k != "value" && k != "description" }

  function AddressKeys(j: Json): set<string>
    requires j.Obj?
  {
    set k | k in j.fields && IsAddressKey(k)
  }

  /** One or more numeric keys with integer values; the greatest counts, and -1 reads as absent. */
  ghost predicate AddressWellFormed(j: Json)
    requires j.Obj?
  {
    && AddressKeys(j) != {}
    && (forall k :: k in AddressKeys(j) ==> HasInt(j, k) && Stoi(k).Some?)
    && Stoi(Greatest(AddressKeys(j))).value != -1 && IntAt(j, Greatest(AddressKeys(j))) != -1
  }

  /** A register: a value, a description and an address. -1 and the empty string read as absent. */
  ghost predicate ItemWellFormed(j: Json) {
    && HasInt(j, "value") && IntAt(j, "value") != -1
    && HasStr(j, "description") && StrAt(j, "description") != ""
    && AddressWellFormed(j)
  }

  ghost function ItemMeaning(j: Json): RegisterItem
    requires ItemWellFormed(j)
  {
    var k := Greatest(AddressKeys(j));
    RegisterItem(Stoi(k).value, IntAt(j, k), IntAt(j, "value"), StrAt(j, "description"))
  }

  ghost predicate WellFormed(j: Json) {
    && HasInt(j, "id") && HasInt(j, "channel") && HasInt(j, "pdu_addr") && HasInt(j, "pdu_func")
    && HasStr(j, "pdu_data") && HasStr(j, "timestamp")
    && HasArr(j, "register_map")
    && forall i :: 0 <= i < |j.fields["register_map"].items| ==> ItemWellFormed(j.fields["register_map"].items[i])
  }

  ghost function Meaning(j: Json): Msg
    requires WellFormed(j)
  {
    var items := j.fields["register_map"].items;
    Msg(IntAt(j, "id"), IntAt(j, "channel"), IntAt(j, "pdu_addr"), IntAt(j, "pdu_func"),
        StrAt(j, "pdu_data"), StrAt(j, "timestamp"),
        seq(|items|, i requires 0 <= i < |items| && ItemWellFormed(items[i]) => ItemMeaning(items[i])))
  }

  ghost function Parse(j: Json): Option<Msg> {
    if WellFormed(j) then Some(Meaning(j)) else None
  }

  // ----- the same, from the tree alone -----

  const MINUS_ONE := 0xffff_ffff

  /** An integer that `get<int>` does not turn into -1. */
  predicate IsPresent(j: Json) { j.Int? && j.n % 0x1_0000_0000 != MINUS_ONE }

  lemma PresentIff(n: int)
    ensures Wrap32(n) != -1 <==> n % 0x1_0000_0000 != MINUS_ONE
  {
  }

  /** A key other than "value" and "description", and the greatest of them. */
  predicate IsLastOther(j: Json, k: string)
    requires j.Obj?
  {
    && k in j.fields && k != "value" && k != "description"
    && forall x :: x in j.fields && x != "value" && x != "description" && x != k ==> Less(x, k)
  }

  /** Which elements of a register map are well-formed: an object with a present integer "value" and a
      non-empty string "description", all of whose other keys are numerals with integers, and whose greatest
      other key is neither the numeral -1 nor has it. */
  lemma ItemWellFormedIff(j: Json)
    ensures ItemWellFormed(j) <==>
              && j.Obj? && {"value", "description"} <= j.fields.Keys
              && IsPresent(j.fields["value"])
              && j.fields["description"].Str? && j.fields["description"].s != ""
              && (forall k :: k in j.fields && k != "value" && k != "description" ==>
                    j.fields[k].Int? && Stoi(k).Some?)
              && exists k :: IsLastOther(j, k) && IsPresent(j.fields[k]) && Stoi(k) != Some(-1)
  {
    if j.Obj? {
      if "value" in j.fields && j.fields["value"].Int? { PresentIff(j.fields["value"].n); }
      AddressIff(j);
    }
  }

  lemma LastOtherIsGreatest(j: Json, k: string)
    requires j.Obj?
    ensures IsLastOther(j, k) <==> IsGreatest(k, AddressKeys(j))
    ensures IsLastOther(j, k) ==> k == Greatest(AddressKeys(j))
  {
    assert forall x :: x in AddressKeys(j) <==> x in j.fields && x != "value" && x != "description";
    if AddressKeys(j) != {} { GreatestExists(AddressKeys(j)); }
  }

  lemma AddressIff(j: Json)
    requires j.Obj?
    ensures AddressWellFormed(j) <==>
              && (forall k :: k in j.fields && k != "value" && k != "description" ==>
                    j.fields[k].Int? && Stoi(k).Some?)
              && exists k :: IsLastOther(j, k) && IsPresent(j.fields[k]) && Stoi(k) != Some(-1)
  {
    forall k ensures IsLastOther(j, k) ==> AddressKeys(j) != {} && k == Greatest(AddressKeys(j)) {
      LastOtherIsGreatest(j, k);
    }
    assert forall k :: k in AddressKeys(j) <==> k in j.fields && k != "value" && k != "description";
    if AddressKeys(j) != {} {
      var g := Greatest(AddressKeys(j));
      LastOtherIsGreatest(j, g);
      AddressOfGreatest(j, g);
    }
  }

  lemma AddressOfGreatest(j: Json, g: string)
    requires j.Obj? && AddressKeys(j) != {} && g == Greatest(AddressKeys(j))
    ensures AddressWellFormed(j) <==>
              && (forall k :: k in AddressKeys(j) ==> j.fields[k].Int? && Stoi(k).Some?)
              && IsPresent(j.fields[g]) && Stoi(g) != Some(-1)
  {
    assert forall k :: k in AddressKeys(j) ==> (HasInt(j, k) <==> j.fields[k].Int?);
    if HasInt(j, g) && Stoi(g).Some? { GreatestPresent(j, g); }
  }

  lemma GreatestPresent(j: Json, g: string)
    requires HasInt(j, g) && Stoi(g).Some?
    ensures IsPresent(j.fields[g]) && Stoi(g) != Some(-1) <==> Stoi(g).value != -1 && IntAt(j, g) != -1
  {
    PresentIff(j.fields[g].n);
  }

  /** Which trees are well-formed, whatever else they hold and however wide their integers are. */
  lemma WellFormedIff(j: Json)
    ensures WellFormed(j) <==>
              && j.Obj?
              && {"id", "channel", "pdu_addr", "pdu_func", "pdu_data", "timestamp", "register_map"} <= j.fields.Keys
              && j.fields["id"].Int? && j.fields["channel"].Int?
              && j.fields["pdu_addr"].Int? && j.fields["pdu_func"].Int?
              && j.fields["pdu_data"].Str? && j.fields["timestamp"].Str? && j.fields["register_map"].Arr?
              && forall x :: x in j.fields["register_map"].items ==> ItemWellFormed(x)
    ensures WellFormed(j) ==>
              var m, f := Meaning(j), j.fields;
              && (f["id"].n - m.id) % 0x1_0000_0000 == 0 && (f["channel"].n - m.channel) % 0x1_0000_0000 == 0
              && (f["pdu_addr"].n - m.pduAddr) % 0x1_0000_0000 == 0
              && (f["pdu_func"].n - m.pduFunc) % 0x1_0000_0000 == 0
              && m.pduData == f["pdu_data"].s && m.timestamp == f["timestamp"].s
              && |m.registerMap| == |f["register_map"].items|
  {
  }

  // ----- the code -----

  /** The last address key among the first `n` keys. */
  function LastAddress(keys: seq<string>, n: nat): Option<string>
    requires n <= |keys|
  {
    if n == 0 then None
    else if IsAddressKey(keys[n - 1]) then Some(keys[n - 1])
    else LastAddress(keys, n - 1)
  }

  lemma {:induction false} LastAddressMeaning(keys: seq<string>, n: nat)
    requires n <= |keys| && Ascending(keys)
    ensures match LastAddress(keys, n)
            case None => forall i :: 0 <= i < n ==> !IsAddressKey(keys[i])
            case Some(k) => k in keys[..n] && IsAddressKey(k)
                            && forall i :: 0 <= i < n && IsAddressKey(keys[i]) && keys[i] != k ==> Less(keys[i], k)
  {
    if n > 0 {
      if IsAddressKey(keys[n - 1]) {
        assert keys[..n][n - 1] == keys[n - 1];
      } else {
        LastAddressMeaning(keys, n - 1);
        assert keys[..n] == keys[..n - 1] + [keys[n - 1]];
      }
    }
  }

  /** The last key wins, and it is the greatest. */
  lemma LastAddressIsGreatest(j: Json)
    requires j.Obj?
    ensures var keys := Sorted(j.fields.Keys);
            LastAddress(keys, |keys|) == if AddressKeys(j) == {} then None else Some(Greatest(AddressKeys(j)))
  {
    var keys := Sorted(j.fields.Keys);
    LastAddressMeaning(keys, |keys|);
    assert keys[..|keys|] == keys;
    match LastAddress(keys, |keys|)
    case None =>
      assert forall k :: k in AddressKeys(j) ==> k in keys;
    case Some(k) =>
      assert IsGreatest(k, AddressKeys(j));
      GreatestExists(AddressKeys(j));
  }

  ghost predicate AddressesUsable(j: Json, keys: seq<string>, n: nat)
    requires n <= |keys|
  {
    forall i :: 0 <= i < n && IsAddressKey(keys[i]) ==> HasInt(j, keys[i]) && Stoi(keys[i]).Some?
  }

  ghost predicate AddressRead(j: Json, keys: seq<string>, n: nat, address: int32, mapAddr: int32)
    requires n <= |keys|
  {
    match LastAddress(keys, n)
    case None => address == -1 && mapAddr == -1
    case Some(k) => Stoi(k) == Some(address) && HasInt(j, k) && mapAddr == IntAt(j, k)
  }

  ghost predicate ValueRead(j: Json, keys: seq<string>, n: nat, value: int32)
    requires n <= |keys|
  {
    if "value" in keys[..n] then HasInt(j, "value") && value == IntAt(j, "value") else value == -1
  }

  ghost predicate DescriptionRead(j: Json, keys: seq<string>, n: nat, description: string)
    requires n <= |keys|
  {
    if "description" in keys[..n] then HasStr(j, "description") && description == StrAt(j, "description")
    else description == ""
  }

  /** What the loop over the keys has established after the first `n`. */
  ghost predicate KeysRead(j: Json, keys: seq<string>, n: nat,
                           address: int32, mapAddr: int32, value: int32, description: string)
    requires n <= |keys|
  {
    && AddressesUsable(j, keys, n) && AddressRead(j, keys, n, address, mapAddr)
    && ValueRead(j, keys, n, value) && DescriptionRead(j, keys, n, description)
  }

  lemma AllAddressesRead(j: Json, address: int32, mapAddr: int32)
    requires j.Obj?
    requires var keys := Sorted(j.fields.Keys);
             AddressesUsable(j, keys, |keys|) && AddressRead(j, keys, |keys|, address, mapAddr)
    ensures AddressWellFormed(j) <==> address != -1 && mapAddr != -1
    ensures AddressWellFormed(j) ==>
              Stoi(Greatest(AddressKeys(j))) == Some(address) && IntAt(j, Greatest(AddressKeys(j))) == mapAddr
  {
    LastAddressIsGreatest(j);
    AllUsable(j);
  }

  lemma AllUsable(j: Json)
    requires j.Obj? && AddressesUsable(j, Sorted(j.fields.Keys), |j.fields.Keys|)
    ensures forall k :: k in AddressKeys(j) ==> HasInt(j, k) && Stoi(k).Some?
  {
    var keys := Sorted(j.fields.Keys);
    forall k | k in AddressKeys(j) ensures HasInt(j, k) && Stoi(k).Some? {
      assert k in keys;
      var i :| 0 <= i < |keys| && keys[i] == k;
    }
  }

  lemma AllKeysRead(j: Json, address: int32, mapAddr: int32, value: int32, description: string)
    requires j.Obj?
    requires var keys := Sorted(j.fields.Keys); KeysRead(j, keys, |keys|, address, mapAddr, value, description)
    ensures ItemWellFormed(j) <==> address != -1 && mapAddr != -1 && value != -1 && description != ""
    ensures ItemWellFormed(j) ==> ItemMeaning(j) == RegisterItem(address, mapAddr, value, description)
  {
    var keys := Sorted(j.fields.Keys);
    assert keys[..|keys|] == keys;
    AllAddressesRead(j, address, mapAddr);
  }

  /** A key whose value the code cannot use makes the element ill-formed. */
  lemma BadKeyRefuses(j: Json, key: string)
    requires j.Obj? && key in j.fields
    requires if key == "value" then !HasInt(j, key)
             else if key == "description" then !HasStr(j, key)
             else !HasInt(j, key) || Stoi(key).None?
    ensures !ItemWellFormed(j)
  {
    if IsAddressKey(key) { assert key in AddressKeys(j); }
  }

  lemma OtherKeyKeepsAddress(j: Json, keys: seq<string>, n: nat, address: int32, mapAddr: int32)
    requires n < |keys| && !IsAddressKey(keys[n])
    requires AddressesUsable(j, keys, n) && AddressRead(j, keys, n, address, mapAddr)
    ensures AddressesUsable(j, keys, n + 1) && AddressRead(j, keys, n + 1, address, mapAddr)
  {
  }

  lemma AddressKeyReads(j: Json, keys: seq<string>, n: nat)
    requires n < |keys| && IsAddressKey(keys[n]) && HasInt(j, keys[n]) && Stoi(keys[n]).Some?
    requires AddressesUsable(j, keys, n)
    ensures AddressesUsable(j, keys, n + 1)
    ensures AddressRead(j, keys, n + 1, Stoi(keys[n]).value, IntAt(j, keys[n]))
  {
  }

  lemma OneMoreKey(j: Json, keys: seq<string>, n: nat, value: int32, description: string)
    requires n < |keys| && ValueRead(j, keys, n, value) && DescriptionRead(j, keys, n, description)
    ensures if keys[n] == "value" then HasInt(j, "value") ==> ValueRead(j, keys, n + 1, IntAt(j, "value"))
            else ValueRead(j, keys, n + 1, value)
    ensures if keys[n] == "description" then HasStr(j, "description") ==> DescriptionRead(j, keys, n + 1, StrAt(j, "description"))
            else DescriptionRead(j, keys, n + 1, description)
  {
    assert keys[..n + 1] == keys[..n] + [keys[n]];
    assert forall k :: k in keys[..n + 1] <==> k in keys[..n] || k == keys[n];
  }

  /** What one key sets. */
  ghost predicate KeySets(j: Json, key: string, was: RegisterItem, now: RegisterItem) {
    if key == "value" then HasInt(j, key) && now == was.(value := IntAt(j, key))
    else if key == "description" then HasStr(j, key) && now == was.(description := StrAt(j, key))
    else HasInt(j, key) && Stoi(key).Some? && now == was.(address := Stoi(key).value, mapAddr := IntAt(j, key))
  }

  lemma OneMoreKeyRead(j: Json, keys: seq<string>, n: nat, was: RegisterItem, now: RegisterItem)
    requires n < |keys| && KeysRead(j, keys, n, was.address, was.mapAddr, was.value, was.description)
    requires KeySets(j, keys[n], was, now)
    ensures KeysRead(j, keys, n + 1, now.address, now.mapAddr, now.value, now.description)
  {
    OneMoreKey(j, keys, n, was.value, was.description);
    if IsAddressKey(keys[n]) {
      AddressKeyReads(j, keys, n);
    } else {
      OtherKeyKeepsAddress(j, keys, n, was.address, was.mapAddr);
    }
  }

  /** One turn of the loop over the keys: the variables after it, `None` if the code gives up. */
  method ReadKey(item: Json, key: string, was: RegisterItem) returns (now: Option<RegisterItem>)
    requires item.Obj? && key in item.fields
    ensures match now
            case None => !ItemWellFormed(item)
            case Some(r) => KeySets(item, key, was, r)
  {
    if key == "value" {
      if !HasInt(item, key) { BadKeyRefuses(item, key); return None; }
      return Some(was.(value := IntAt(item, key)));
    } else if key == "description" {
      if !HasStr(item, key) { BadKeyRefuses(item, key); return None; }
      return Some(was.(description := StrAt(item, key)));
    } else {
      if !HasInt(item, key) || Stoi(key).None? { BadKeyRefuses(item, key); return None; }
      return Some(was.(address := Stoi(key).value, mapAddr := IntAt(item, key)));
    }
  }

  /** The loop over the keys of one element: what it leaves in its variables, `None` if it gives up. */
  method ReadKeys(item: Json) returns (reg: Option<RegisterItem>)
    requires item.Obj?
    ensures match reg
            case None => !ItemWellFormed(item)
            case Some(r) =>
              var keys := Sorted(item.fields.Keys);
              KeysRead(item, keys, |keys|, r.address, r.mapAddr, r.value, r.description)
  {
    var r := RegisterItem(-1, -1, -1, "");
    var keys := Sorted(item.fields.Keys);
    for i := 0 to |keys|
      invariant KeysRead(item, keys, i, r.address, r.mapAddr, r.value, r.description)
    {
      var now := ReadKey(item, keys[i], r);
      if now.None? { return None; }
      OneMoreKeyRead(item, keys, i, r, now.value);
      r := now.value;
    }
    return Some(r);
  }

  /** One element of the register map; `None` where the code gives up on the message. */
  method ParseItem(item: Json) returns (reg: Option<RegisterItem>)
    ensures reg == if ItemWellFormed(item) then Some(ItemMeaning(item)) else None
  {
    if !item.Obj? { return None; }
    reg := ReadKeys(item);
    if reg.None? { return None; }
    var r := reg.value;
    AllKeysRead(item, r.address, r.mapAddr, r.value, r.description);
    if r.address == -1 || r.mapAddr == -1 || r.value == -1 || r.description == "" { return None; }
  }

  /** The registers read so far are what their elements mean. */
  ghost predicate ItemsRead(items: seq<Json>, done: seq<RegisterItem>) {
    && |done| <= |items|
    && forall k :: 0 <= k < |done| ==> IsItem(items[k], done[k])
  }

  ghost predicate IsItem(item: Json, reg: RegisterItem) { ItemWellFormed(item) && reg == ItemMeaning(item) }

  lemma OneMoreItem(items: seq<Json>, done: seq<RegisterItem>, reg: RegisterItem)
    requires ItemsRead(items, done) && |done| < |items|
    requires IsItem(items[|done|], reg)
    ensures ItemsRead(items, done + [reg])
  {
    var more := done + [reg];
    forall k | 0 <= k < |more| ensures IsItem(items[k], more[k]) {
      assert more[k] == if k < |done| then done[k] else reg;
    }
  }

  /** The loop over the register map. */
  method ParseItems(items: seq<Json>) returns (regs: Option<seq<RegisterItem>>)
    ensures regs.Some? <==> forall i :: 0 <= i < |items| ==> ItemWellFormed(items[i])
    ensures regs.Some? ==> |regs.value| == |items| && ItemsRead(items, regs.value)
  {
    var done: seq<RegisterItem> := [];
    for i := 0 to |items|
      invariant |done| == i && ItemsRead(items, done)
    {
      var reg := ParseItem(items[i]);
      if reg.None? { return None; }
      OneMoreItem(items, done, reg.value);
      done := done + [reg.value];
    }
    return Some(done);
  }

  /** Accepts exactly the well-formed trees, and then yields their meaning. */
  method ParseModbusMsg(j: Json) returns (ok: bool, msg: Msg)
    ensures ok <==> WellFormed(j)
    ensures ok ==> msg == Meaning(j)
  {
    msg := EMPTY_MSG;
    if !HasInt(j, "id") { return false, msg; }
    msg := msg.(id := IntAt(j, "id"));
    if !HasInt(j, "channel") { return false, msg; }
    msg := msg.(channel := IntAt(j, "channel"));
    if !HasInt(j, "pdu_addr") { return false, msg; }
    msg := msg.(pduAddr := IntAt(j, "pdu_addr"));
    if !HasInt(j, "pdu_func") { return false, msg; }
    msg := msg.(pduFunc := IntAt(j, "pdu_func"));
    if !HasStr(j, "pdu_data") { return false, msg; }
    msg := msg.(pduData := StrAt(j, "pdu_data"));
    if !HasStr(j, "timestamp") { return false, msg; }
    msg := msg.(timestamp := StrAt(j, "timestamp"));
    if !HasArr(j, "register_map") { return false, msg; }
    var regs := ParseItems(j.fields["register_map"].items);
    if regs.None? { return false, msg; }
    msg := msg.(registerMap := regs.value);
    assert regs.value == Meaning(j).registerMap;
    return true, msg;
  }

  // ----- the sender's encoding -----

  function EncodeItem(r: RegisterItem): Json {
    Obj(map["value" := Int(r.value), "description" := Str(r.description)][Decimal(r.address) := Int(r.mapAddr)])
  }

  function Encode(m: Msg): Json {
    Obj(map[
      "id" := Int(m.id), "channel" := Int(m.channel), "pdu_addr" := Int(m.pduAddr), "pdu_func" := Int(m.pduFunc),
      "pdu_data" := Str(m.pduData), "timestamp" := Str(m.timestamp),
      "register_map" := Arr(seq(|m.registerMap|, i requires 0 <= i < |m.registerMap| => EncodeItem(m.registerMap[i])))])
  }

  /** Registers the encoding can carry: none of the parts looks like an absent one. */
  predicate Encodable(r: RegisterItem) {
    r.address != -1 && r.mapAddr != -1 && r.value != -1 && r.description != ""
  }

  lemma EncodedItem(r: RegisterItem)
    ensures ItemWellFormed(EncodeItem(r)) <==> Encodable(r)
    ensures Encodable(r) ==> ItemMeaning(EncodeItem(r)) == r
  {
    var j, key := EncodeItem(r), Decimal(r.address);
    StoiOfDecimal(r.address);
    DecimalIsAddressKey(r.address);
    assert j.fields["value"] == Int(r.value) && j.fields["description"] == Str(r.description);
    OneAddressItem(j, key, r);
  }

  lemma OneAddressItem(j: Json, key: string, r: RegisterItem)
    requires j.Obj? && j.fields.Keys == {"value", "description", key} && IsAddressKey(key)
    requires j.fields["value"] == Int(r.value) && j.fields["description"] == Str(r.description)
    requires j.fields[key] == Int(r.mapAddr) && Stoi(key) == Some(r.address)
    ensures ItemWellFormed(j) <==> Encodable(r)
    ensures Encodable(r) ==> ItemMeaning(j) == r
  {
    OneAddressIff(j, key, r.address, r.mapAddr);
    ValueAndDescription(j, r);
  }

  lemma ValueAndDescription(j: Json, r: RegisterItem)
    requires j.Obj? && {"value", "description"} <= j.fields.Keys
    requires j.fields["value"] == Int(r.value) && j.fields["description"] == Str(r.description)
    ensures HasInt(j, "value") && HasStr(j, "description")
    ensures IntAt(j, "value") == r.value && StrAt(j, "description") == r.description
  {
  }

  lemma OneAddressIff(j: Json, key: string, address: int32, mapAddr: int32)
    requires j.Obj? && j.fields.Keys == {"value", "description", key} && IsAddressKey(key)
    requires j.fields[key] == Int(mapAddr) && Stoi(key) == Some(address)
    ensures AddressWellFormed(j) <==> address != -1 && mapAddr != -1
    ensures AddressKeys(j) != {} && Greatest(AddressKeys(j)) == key && IntAt(j, key) == mapAddr
  {
    OnlyAddressKey(j, key);
    assert HasInt(j, key) && IntAt(j, key) == mapAddr;
    OneKeyIff(j, key);
  }

  lemma OneKeyIff(j: Json, key: string)
    requires j.Obj? && AddressKeys(j) == {key} && Greatest(AddressKeys(j)) == key
    requires HasInt(j, key) && Stoi(key).Some?
    ensures AddressWellFormed(j) <==> Stoi(key).value != -1 && IntAt(j, key) != -1
  {
  }

  lemma DecimalIsAddressKey(n: int32)
    ensures IsAddressKey(Decimal(n))
  {
    var key := Decimal(n);
    assert key[0] == '-' || IsDigit(key[0]);
    assert "value"[0] == 'v' && "description"[0] == 'd';
  }

  lemma OnlyAddressKey(j: Json, key: string)
    requires j.Obj? && j.fields.Keys == {"value", "description", key} && IsAddressKey(key)
    ensures AddressKeys(j) == {key} && Greatest(AddressKeys(j)) == key
  {
    assert AddressKeys(j) == {key};
  }

  /** Parsing undoes encoding exactly for messages all of whose registers can be carried. */
  lemma EncodeThenParse(m: Msg)
    ensures Parse(Encode(m)) == if forall i :: 0 <= i < |m.registerMap| ==> Encodable(m.registerMap[i])
                                then Some(m) else None
  {
    var j := Encode(m);
    var items := j.fields["register_map"].items;
    forall i | 0 <= i < |m.registerMap|
      ensures ItemWellFormed(items[i]) <==> Encodable(m.registerMap[i])
      ensures Encodable(m.registerMap[i]) ==> ItemMeaning(items[i]) == m.registerMap[i]
    {
      EncodedItem(m.registerMap[i]);
    }
    if WellFormed(j) { assert Meaning(j).registerMap == m.registerMap; }
  }
}
