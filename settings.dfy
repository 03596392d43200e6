/** `PATCH /api/system`: the request body is received into the scratch buffer,
    parsed as JSON, and each recognised field is written to the non-volatile
    configuration store under its own guard. */
module Settings {
  import opened Common
  import opened Json
  import opened Http

  /** An unsigned 16-bit value (`uint16_t`). */
  type u16 = x: int | 0 <= x < 0x1_0000

  /** C's conversion of an `int` to `uint16_t`: the value modulo 2^16. */
  function ToU16(x: int): (r: u16)
    ensures 0 <= x < 0x1_0000 ==> r == x
    ensures (r - x) % 0x1_0000 == 0
  {
    x % 0x1_0000
  }

  /** The configuration keys the handler writes. */
  datatype ConfigKey =
    | StratumUrl | FallbackStratumUrl
    | StratumExtranonceSubscribe | StratumDifficulty | StratumUser | StratumPass
    | FallbackStratumExtranonceSubscribe | FallbackStratumDifficulty
    | FallbackStratumUser | FallbackStratumPass
    | StratumPort | FallbackStratumPort
    | WifiSsid | WifiPass | Hostname
    | AsicVoltage | AsicFreq | OverheatMode
    | Display | Rotation | InvertScreen | DisplayTimeout
    | AutoFanSpeed | FanSpeed | MinFanSpeed | TempTarget
    | StatisticsFrequency | OverclockEnabled

  /** A stored value, by the `nvs_config_set_*` call that wrote it. */
  datatype Setting = Str(s: string) | U16(n: u16) | I32(i: i32)

  /** How a field is guarded and stored. */
  datatype Kind =
    | StringField     // written only when the value is a JSON string
    | U16Field        // written whenever the field is present, as valueint mod 2^16
    | U16IfPositive   // written only when valueint > 0
    | ZeroIfPresent   // 0 is written whenever the field is present
    | I32Field        // written whenever the field is present, as valueint

  datatype Rule = Rule(field: string, key: ConfigKey, kind: Kind)

  /** The fields the handler looks for, in the order it writes them. */
  const RULES: seq<Rule> := [
    Rule("stratumURL", StratumUrl, StringField),
    Rule("fallbackStratumURL", FallbackStratumUrl, StringField),
    Rule("stratumExtranonceSubscribe", StratumExtranonceSubscribe, U16Field),
    Rule("stratumSuggestedDifficulty", StratumDifficulty, U16Field),
    Rule("stratumUser", StratumUser, StringField),
    Rule("stratumPassword", StratumPass, StringField),
    Rule("fallbackStratumExtranonceSubscribe", FallbackStratumExtranonceSubscribe, U16Field),
    Rule("fallbackStratumSuggestedDifficulty", FallbackStratumDifficulty, U16Field),
    Rule("fallbackStratumUser", FallbackStratumUser, StringField),
    Rule("fallbackStratumPassword", FallbackStratumPass, StringField),
    Rule("stratumPort", StratumPort, U16Field),
    Rule("fallbackStratumPort", FallbackStratumPort, U16Field),
    Rule("ssid", WifiSsid, StringField),
    Rule("wifiPass", WifiPass, StringField),
    Rule("hostname", Hostname, StringField),
    Rule("coreVoltage", AsicVoltage, U16IfPositive),
    Rule("frequency", AsicFreq, U16IfPositive),
    Rule("overheat_mode", OverheatMode, ZeroIfPresent),
    Rule("display", Display, StringField),
    Rule("rotation", Rotation, U16Field),
    Rule("invertscreen", InvertScreen, U16Field),
    Rule("displayTimeout", DisplayTimeout, I32Field),
    Rule("autofanspeed", AutoFanSpeed, U16Field),
    Rule("fanspeed", FanSpeed, U16Field),
    Rule("minFanSpeed", MinFanSpeed, U16Field),
    Rule("temptarget", TempTarget, U16Field),
    Rule("statsFrequency", StatisticsFrequency, U16Field),
    Rule("overclockEnabled", OverclockEnabled, U16Field)
  ]

  /** The value one guarded write stores, None when its guard fails. */
  function RuleWrite(root: JValue, r: Rule): (w: Option<Setting>)
    ensures GetObjectItem(root, r.field).None? ==> w.None?
    ensures r.kind == StringField ==>
      (w.Some? <==> GetObjectItem(root, r.field).Some? && GetObjectItem(root, r.field).value.JString?)
    ensures r.kind == StringField && w.Some? ==> w.value == Str(GetObjectItem(root, r.field).value.s)
    ensures r.kind == U16IfPositive ==>
      (w.Some? <==> GetObjectItem(root, r.field).Some? && ValueInt(GetObjectItem(root, r.field).value) > 0)
    ensures r.kind == U16IfPositive && w.Some? ==> w.value == U16(ToU16(ValueInt(GetObjectItem(root, r.field).value)))
    ensures r.kind in {U16Field, ZeroIfPresent, I32Field} ==> (w.Some? <==> GetObjectItem(root, r.field).Some?)
    ensures r.kind == ZeroIfPresent && w.Some? ==> w.value == U16(0)
    ensures r.kind == I32Field && w.Some? ==> w.value == I32(ValueInt(GetObjectItem(root, r.field).value))
  {
    match GetObjectItem(root, r.field)
    case None => None
    case Some(item) =>
      match r.kind
      case StringField => if item.JString? then Some(Str(item.s)) else None
      case U16Field => Some(U16(ToU16(ValueInt(item))))
      case U16IfPositive => if ValueInt(item) > 0 then Some(U16(ToU16(ValueInt(item)))) else None
      case ZeroIfPresent => Some(U16(0))
      case I32Field => Some(I32(ValueInt(item)))
  }

  /** The configuration after the guarded writes of `rules`, in order, on `m`. */
  function ApplyRules(m: map<ConfigKey, Setting>, root: JValue, rules: seq<Rule>): map<ConfigKey, Setting>
    decreases |rules|
  {
    if rules == [] then m
    else
      var prev := ApplyRules(m, root, rules[..|rules| - 1]);
      var r := rules[|rules| - 1];
      match RuleWrite(root, r)
      case None => prev
      case Some(v) => prev[r.key := v]
  }

  /** The writes a patch makes do not depend on the configuration they are made on:
      the result is the old configuration overridden by the patch's own writes. */
  lemma {:induction false} ApplyRulesOverrides(m: map<ConfigKey, Setting>, root: JValue, rules: seq<Rule>)
    ensures ApplyRules(m, root, rules) == m + ApplyRules(map[], root, rules)
    decreases |rules|
  {
    if rules != [] {
      var init := rules[..|rules| - 1];
      ApplyRulesOverrides(m, root, init);
      var r := rules[|rules| - 1];
      match RuleWrite(root, r)
      case None =>
      case Some(v) =>
        var w := ApplyRules(map[], root, init);
        assert (m + w)[r.key := v] == m + w[r.key := v];
    }
  }

  /** Sending the same patch twice leaves the configuration as sending it once. */
  lemma ApplyRulesIdempotent(m: map<ConfigKey, Setting>, root: JValue, rules: seq<Rule>)
    ensures ApplyRules(ApplyRules(m, root, rules), root, rules) == ApplyRules(m, root, rules)
  {
    var w := ApplyRules(map[], root, rules);
    ApplyRulesOverrides(m, root, rules);
    ApplyRulesOverrides(m + w, root, rules);
    assert (m + w) + w == m + w;
  }

  /** A key no rule writes keeps its value (or stays absent). */
  lemma {:induction false} ApplyRulesFrame(m: map<ConfigKey, Setting>, root: JValue, rules: seq<Rule>, k: ConfigKey)
    requires forall i :: 0 <= i < |rules| && rules[i].key == k ==> RuleWrite(root, rules[i]).None?
    ensures k in ApplyRules(m, root, rules) <==> k in m
    ensures k in m ==> ApplyRules(m, root, rules)[k] == m[k]
    decreases |rules|
  {
    if rules != [] {
      ApplyRulesFrame(m, root, rules[..|rules| - 1], k);
    }
  }

  /** A key written by a rule that no later rule overrides holds that rule's value. */
  lemma {:induction false} ApplyRulesLastWrite(m: map<ConfigKey, Setting>, root: JValue, rules: seq<Rule>, i: nat)
    requires i < |rules| && RuleWrite(root, rules[i]).Some?
    requires forall j :: i < j < |rules| ==> rules[j].key != rules[i].key
    ensures rules[i].key in ApplyRules(m, root, rules)
    ensures ApplyRules(m, root, rules)[rules[i].key] == RuleWrite(root, rules[i]).value
    decreases |rules|
  {
    if i < |rules| - 1 {
      ApplyRulesLastWrite(m, root, rules[..|rules| - 1], i);
    }
  }

  /** The position of a key in the declaration above. */
  function KeyIndex(k: ConfigKey): nat
  {
    match k
    case StratumUrl => 0
    case FallbackStratumUrl => 1
    case StratumExtranonceSubscribe => 2
    case StratumDifficulty => 3
    case StratumUser => 4
    case StratumPass => 5
    case FallbackStratumExtranonceSubscribe => 6
    case FallbackStratumDifficulty => 7
    case FallbackStratumUser => 8
    case FallbackStratumPass => 9
    case StratumPort => 10
    case FallbackStratumPort => 11
    case WifiSsid => 12
    case WifiPass => 13
    case Hostname => 14
    case AsicVoltage => 15
    case AsicFreq => 16
    case OverheatMode => 17
    case Display => 18
    case Rotation => 19
    case InvertScreen => 20
    case DisplayTimeout => 21
    case AutoFanSpeed => 22
    case FanSpeed => 23
    case MinFanSpeed => 24
    case TempTarget => 25
    case StatisticsFrequency => 26
    case OverclockEnabled => 27
  }

  /** No two rules write the same key: rule `i` writes the `i`-th key declared. */
  lemma RuleKeysDistinct()
    ensures forall i, j :: 0 <= i < j < |RULES| ==> RULES[i].key != RULES[j].key
  {
    RuleKeyIndices0();
    RuleKeyIndices1();
    RuleKeyIndices2();
    RuleKeyIndices3();
    assert forall i :: 0 <= i < |RULES| ==> KeyIndex(RULES[i].key) == i;
  }

  lemma RuleKeyIndices0()
    ensures forall i :: 0 <= i < 7 ==> KeyIndex(RULES[i].key) == i
  {
    assert KeyIndex(RULES[0].key) == 0;
    assert KeyIndex(RULES[1].key) == 1;
    assert KeyIndex(RULES[2].key) == 2;
    assert KeyIndex(RULES[3].key) == 3;
    assert KeyIndex(RULES[4].key) == 4;
    assert KeyIndex(RULES[5].key) == 5;
    assert KeyIndex(RULES[6].key) == 6;
  }

  lemma RuleKeyIndices1()
    ensures forall i :: 7 <= i < 14 ==> KeyIndex(RULES[i].key) == i
  {
    assert KeyIndex(RULES[7].key) == 7;
    assert KeyIndex(RULES[8].key) == 8;
    assert KeyIndex(RULES[9].key) == 9;
    assert KeyIndex(RULES[10].key) == 10;
    assert KeyIndex(RULES[11].key) == 11;
    assert KeyIndex(RULES[12].key) == 12;
    assert KeyIndex(RULES[13].key) == 13;
  }

  lemma RuleKeyIndices2()
    ensures forall i :: 14 <= i < 21 ==> KeyIndex(RULES[i].key) == i
  {
    assert KeyIndex(RULES[14].key) == 14;
    assert KeyIndex(RULES[15].key) == 15;
    assert KeyIndex(RULES[16].key) == 16;
    assert KeyIndex(RULES[17].key) == 17;
    assert KeyIndex(RULES[18].key) == 18;
    assert KeyIndex(RULES[19].key) == 19;
    assert KeyIndex(RULES[20].key) == 20;
  }

  lemma RuleKeyIndices3()
    ensures forall i :: 21 <= i < 28 ==> KeyIndex(RULES[i].key) == i
  {
    assert KeyIndex(RULES[21].key) == 21;
    assert KeyIndex(RULES[22].key) == 22;
    assert KeyIndex(RULES[23].key) == 23;
    assert KeyIndex(RULES[24].key) == 24;
    assert KeyIndex(RULES[25].key) == 25;
    assert KeyIndex(RULES[26].key) == 26;
    assert KeyIndex(RULES[27].key) == 27;
  }

  /** The effect of a patch on each key: the value its rule writes, or the old
      value when the field is absent or its guard fails. */
  lemma PatchEffect(m: map<ConfigKey, Setting>, root: JValue, i: nat)
    requires i < |RULES|
    ensures RuleWrite(root, RULES[i]).Some? ==>
      RULES[i].key in ApplyRules(m, root, RULES)
      && ApplyRules(m, root, RULES)[RULES[i].key] == RuleWrite(root, RULES[i]).value
    ensures RuleWrite(root, RULES[i]).None? ==>
      (RULES[i].key in ApplyRules(m, root, RULES) <==> RULES[i].key in m)
      && (RULES[i].key in m ==> ApplyRules(m, root, RULES)[RULES[i].key] == m[RULES[i].key])
  {
    RuleKeysDistinct();
    if RuleWrite(root, RULES[i]).Some? {
      ApplyRulesLastWrite(m, root, RULES, i);
    } else {
      ApplyRulesFrame(m, root, RULES, RULES[i].key);
    }
  }

  /** A present `overheat_mode` always stores 0, whatever its value. */
  lemma OverheatModeClears(m: map<ConfigKey, Setting>, root: JValue)
    requires GetObjectItem(root, "overheat_mode").Some?
    ensures OverheatMode in ApplyRules(m, root, RULES) && ApplyRules(m, root, RULES)[OverheatMode] == U16(0)
  {
    assert RULES[17] == Rule("overheat_mode", OverheatMode, ZeroIfPresent);
    PatchEffect(m, root, 17);
  }

  /** A non-positive `frequency` or `coreVoltage` leaves the stored value alone. */
  lemma NonPositiveAsicValuesIgnored(m: map<ConfigKey, Setting>, root: JValue)
    requires AsicVoltage in m && AsicFreq in m
    requires GetObjectItem(root, "coreVoltage").Some? ==> ValueInt(GetObjectItem(root, "coreVoltage").value) <= 0
    requires GetObjectItem(root, "frequency").Some? ==> ValueInt(GetObjectItem(root, "frequency").value) <= 0
    ensures AsicVoltage in ApplyRules(m, root, RULES) && ApplyRules(m, root, RULES)[AsicVoltage] == m[AsicVoltage]
    ensures AsicFreq in ApplyRules(m, root, RULES) && ApplyRules(m, root, RULES)[AsicFreq] == m[AsicFreq]
  {
    assert RULES[15] == Rule("coreVoltage", AsicVoltage, U16IfPositive);
    assert RULES[16] == Rule("frequency", AsicFreq, U16IfPositive);
    PatchEffect(m, root, 15);
    PatchEffect(m, root, 16);
  }

  /** A body that is not a JSON object writes nothing. */
  lemma NonObjectWritesNothing(m: map<ConfigKey, Setting>, root: JValue)
    requires !root.JObject?
    ensures ApplyRules(m, root, RULES) == m
  {
    ApplyRulesOverrides(m, root, RULES);
    ApplyRulesEmpty(root, RULES);
    assert m + map[] == m;
  }

  lemma {:induction false} ApplyRulesEmpty(root: JValue, rules: seq<Rule>)
    requires !root.JObject?
    ensures ApplyRules(map[], root, rules) == map[]
    decreases |rules|
  {
    if rules != [] {
      ApplyRulesEmpty(root, rules[..|rules| - 1]);
    }
  }

  // ---------------------------------------------------------------------------
  // The length check

  /** The length check as written: `content_len` is converted to `int` before it is
      compared with the buffer size. The result is the index at which the body's
      terminating NUL is stored, when the check lets the request through. */
  function NulIndexAsWritten(contentLen: u32): (r: Option<int>)
    ensures r.Some? <==> ToInt32(contentLen) < SCRATCH_BUFSIZE
    ensures r.Some? ==> r.value == ToInt32(contentLen)
  {
    var totalLen := ToInt32(contentLen);
    if totalLen >= SCRATCH_BUFSIZE then None else Some(totalLen)
  }

  /** A declared length of 2^31 passes the check as written and puts the NUL
      2^31 bytes before the scratch buffer. */
  lemma NulIndexAsWrittenOutOfBuffer()
    ensures NulIndexAsWritten(0x8000_0000) == Some(-0x8000_0000)
  {
  }

  /** The check as intended: the declared length is compared as the unsigned value
      it is. */
  function NulIndex(contentLen: u32): (r: Option<nat>)
    ensures r.Some? <==> contentLen < SCRATCH_BUFSIZE
    ensures r.Some? ==> r.value == contentLen
  {
    if contentLen >= SCRATCH_BUFSIZE then None else Some(contentLen)
  }

  /** Every request the intended check lets through stores its NUL inside the
      buffer, and so does every request the check as written lets through with a
      length below 2^31. */
  lemma NulIndexInBuffer(contentLen: u32)
    ensures NulIndex(contentLen).Some? ==> NulIndex(contentLen).value < SCRATCH_BUFSIZE
    ensures contentLen < 0x8000_0000 ==> NulIndexAsWritten(contentLen) == if NulIndex(contentLen).Some? then Some(NulIndex(contentLen).value as int) else None
  {
  }

  // ---------------------------------------------------------------------------
  // Receiving the body

  /** Whether the receive loop collects `total` bytes, having `cur` already, when
      receive call `k` returns `recv(k)`: a positive result is a number of bytes
      (at most the rest of the body arrives), anything else is a failure. */
  ghost predicate ReceivesAll(total: nat, cur: nat, k: nat, recv: nat -> int)
    decreases if cur < total then total - cur else 0
  {
    cur >= total || (recv(k) > 0 && ReceivesAll(total, cur + recv(k), k + 1, recv))
  }

  /** A body whose receives all deliver something is received whole. */
  lemma {:induction false} ReceivesAllWhenNoFailure(total: nat, cur: nat, k: nat, recv: nat -> int)
    requires forall j :: j >= k ==> recv(j) > 0
    ensures ReceivesAll(total, cur, k, recv)
    decreases if cur < total then total - cur else 0
  {
    if cur < total {
      ReceivesAllWhenNoFailure(total, cur + recv(k), k + 1, recv);
    }
  }

  // ---------------------------------------------------------------------------
  // The configuration store and the handler

  /** The non-volatile configuration store. */
  class NvsStore {
    var entries: map<ConfigKey, Setting>

    constructor(init: map<ConfigKey, Setting>)
      ensures entries == init
    {
      entries := init;
    }

    /** `nvs_config_set_string`, `nvs_config_set_u16`, `nvs_config_set_i32`. */
    method Set(key: ConfigKey, value: Setting)
      modifies this
      ensures entries == old(entries)[key := value]
    {
      entries := entries[key := value];
    }
  }

  /** The receive loop: up to `total` bytes of `body` are received into the
      scratch buffer, `cur_len` counting them; a receive that returns 0 or less
      ends the request. None when a receive failed. */
  method ReceiveBody(total: nat, body: seq<byte>, recv: nat -> int) returns (buf: Option<seq<byte>>)
    requires |body| == total
    ensures buf.Some? <==> ReceivesAll(total, 0, 0, recv)
    ensures buf.Some? ==> buf.value == body
  {
    var received: seq<byte> := [];
    var curLen := 0;
    var k := 0;
    while curLen < total
      invariant 0 <= curLen <= total && received == body[..curLen]
      invariant ReceivesAll(total, 0, 0, recv) == ReceivesAll(total, curLen, k, recv)
      decreases total - curLen
    {
      var n := recv(k);
      if n <= 0 {
        return None;
      }
      var taken := if n < total - curLen then n else total - curLen;
      ClampedReceive(total, curLen, k, recv);
      received := received + body[curLen..curLen + taken];
      curLen := curLen + taken;
      k := k + 1;
    }
    return Some(received);
  }

  /** Taking only the rest of the body from a larger receive does not change
      whether the whole body arrives. */
  lemma ClampedReceive(total: nat, cur: nat, k: nat, recv: nat -> int)
    requires cur < total && recv(k) > 0
    ensures ReceivesAll(total, cur, k, recv) ==
      ReceivesAll(total, if recv(k) < total - cur then cur + recv(k) else total, k + 1, recv)
  {
  }

  /** The guarded writes of `rules`, in order (the handler passes `RULES`). */
  method ApplySettings(store: NvsStore, root: JValue, rules: seq<Rule>)
    modifies store
    ensures store.entries == ApplyRules(old(store.entries), root, rules)
  {
    for i := 0 to |rules|
      invariant store.entries == ApplyRules(old(store.entries), root, rules[..i])
    {
      assert rules[..i + 1][..i] == rules[..i];
      var w := RuleWrite(root, rules[i]);
      if w.Some? {
        store.Set(rules[i].key, w.value);
      }
    }
    assert rules[..|rules|] == rules;
  }

  /** Whether a request that passed the gate and CORS reaches the writes. */
  ghost predicate PatchAccepted(contentLen: u32, recv: nat -> int, parsed: Option<JValue>)
  {
    contentLen < SCRATCH_BUFSIZE && ReceivesAll(contentLen, 0, 0, recv) && parsed.Some?
  }

  /** The part of `PATCH_update_settings` after the gate and the CORS headers:
      the length check, the receive, the parse and the writes. `last` is the call
      that completes the response. */
  method PatchBody(store: NvsStore, contentLen: u32, body: seq<byte>, recv: nat -> int,
                   parse: seq<byte> -> Option<JValue>)
    returns (last: Event)
    requires |body| == contentLen
    modifies store
    ensures Terminal(last)
    ensures contentLen >= SCRATCH_BUFSIZE ==> last == SendErr(500, "content too long")
    ensures contentLen < SCRATCH_BUFSIZE && !ReceivesAll(contentLen, 0, 0, recv) ==>
      last == SendErr(500, "Failed to post control value")
    ensures contentLen < SCRATCH_BUFSIZE && ReceivesAll(contentLen, 0, 0, recv) && parse(body).None? ==>
      last == SendErr(400, "Invalid JSON")
    ensures PatchAccepted(contentLen, recv, parse(body)) ==>
      last == SendChunk([]) && store.entries == ApplyRules(old(store.entries), parse(body).value, RULES)
    ensures !PatchAccepted(contentLen, recv, parse(body)) ==> store.entries == old(store.entries)
  {
    var nul := NulIndex(contentLen);
    if nul.None? {
      return SendErr(500, "content too long");
    }
    var buf := ReceiveBody(nul.value, body, recv);
    if buf.None? {
      return SendErr(500, "Failed to post control value");
    }
    var root := parse(buf.value);
    if root.None? {
      return SendErr(400, "Invalid JSON");
    }
    ApplySettings(store, root.value, RULES);
    last := SendChunk([]);
  }

  /** `PATCH_update_settings`. `contentLen` is the declared length and `body` the
      bytes the client sends; receive call `k` returns `recv(k)` (a positive number
      of bytes, of which at most the rest of the body is taken, or a failure);
      `parse` is cJSON's parser, None for a body it rejects. */
  method PatchUpdateSettings(store: NvsStore, apEnabled: bool, client: Client, room: nat,
                             contentLen: u32, body: seq<byte>, recv: nat -> int,
                             parse: seq<byte> -> Option<JValue>)
    returns (events: seq<Event>)
    requires |body| == contentLen
    modifies store
    ensures Complete(events)
    ensures !Allowed(apEnabled, client) ==> events == UNAUTHORIZED
    ensures Allowed(apEnabled, client) && room < 3 ==> events == CORS_EVENTS[..room] + [Send500]
    ensures (Allowed(apEnabled, client) && room >= 3 && contentLen >= SCRATCH_BUFSIZE) ==>
      events == CORS_EVENTS + [SendErr(500, "content too long")]
    ensures (Allowed(apEnabled, client) && room >= 3 && contentLen < SCRATCH_BUFSIZE
      && !ReceivesAll(contentLen, 0, 0, recv)) ==>
      events == CORS_EVENTS + [SendErr(500, "Failed to post control value")]
    ensures (Allowed(apEnabled, client) && room >= 3 && contentLen < SCRATCH_BUFSIZE
      && ReceivesAll(contentLen, 0, 0, recv) && parse(body).None?) ==>
      events == CORS_EVENTS + [SendErr(400, "Invalid JSON")]
    ensures (Allowed(apEnabled, client) && room >= 3 && PatchAccepted(contentLen, recv, parse(body))) ==>
      events == CORS_EVENTS + [SendChunk([])]
      && store.entries == ApplyRules(old(store.entries), parse(body).value, RULES)
    ensures !(Allowed(apEnabled, client) && room >= 3 && PatchAccepted(contentLen, recv, parse(body))) ==>
      store.entries == old(store.entries)
  {
    if !Allowed(apEnabled, client) {
      return UNAUTHORIZED;
    }
    var cors := SetCorsHeaders(room);
    if cors.err != EspOk {
      CorsOr500Complete(room, [Send500]);
      return cors.events + [Send500];
    }
    var last := PatchBody(store, contentLen, body, recv, parse);
    CorsOr500Complete(room, [last]);
    events := cors.events + [last];
  }
}
