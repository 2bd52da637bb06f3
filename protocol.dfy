/**
 * The 4HEAT "2ways" datapoint codec: the `2WL` status reply, the hex records it carries,
 * and the command frames sent to the stove.
 *
 * Records are strings of hex digits. The first byte names the record type and every field
 * sits at a fixed character offset. Signed fields are 16-bit two's complement; scaled
 * fields carry their number of decimals (`posPunto`).
 */
module Protocol {
  import opened Wrappers
  import opened JsText
  import opened Numbers

  // ---------------------------------------------------------------- numeric helpers

  /** Reads a 16-bit word as a two's-complement value. */
  function Signed16(v: int): (r: int)
    ensures 0 <= v < 65536 ==> -32768 <= r < 32768 && (r == v || r == v - 65536)
    ensures v <= 32767 ==> r == v
  {
    if v > 32767 then v - 65536 else v
  }

  /** The 16-bit word that writes a value: negative values get 65536 added. */
  function Word16(v: int): (r: int)
    ensures -32768 <= v < 32768 ==> 0 <= r < 65536 && (r == v || r == v + 65536)
    ensures v >= 0 ==> r == v
  {
    if v < 0 then v + 65536 else v
  }

  /** Writing a 16-bit value and reading it back gives the value. */
  lemma Signed16Word16(v: int)
    requires -32768 <= v < 32768
    ensures Signed16(Word16(v)) == v
  {
  }

  /** Reading a word and writing the value back gives the word. */
  lemma Word16Signed16(w: int)
    requires 0 <= w < 65536
    ensures Word16(Signed16(w)) == w
  {
  }

  function Pow10(p: nat): (r: nat)
    ensures r >= 1
  {
    if p == 0 then 1 else 10 * Pow10(p - 1)
  }

  /** A raw reading scaled by its number of decimals; a non-positive count leaves it as is. */
  function ApplyPosPunto(raw: int, posPunto: int): (r: real)
    ensures posPunto > 0 ==> r * (Pow10(posPunto) as real) == raw as real
    ensures posPunto <= 0 ==> r == raw as real
  {
    var div := if posPunto > 0 then Pow10(posPunto) else 1;
    raw as real / div as real
  }

  // ---------------------------------------------------------------- status reply

  /**
   * parse2WLResponse: the hex records of a `["2WL","count",...]` reply, without the tag and
   * the count; None when the trimmed reply does not open with `["2WL"`.
   */
  function Parse2WLResponse(raw: string): (r: Option<seq<string>>)
    ensures r.Some? <==> StartsWith(Trim(raw), "[\"2WL\"")
  {
    assert "[\"" + "2WL" + "\"" == "[\"2WL\"";
    match Fields(raw, "2WL")
    case None => None
    case Some(parts) => Some(if |parts| >= 2 then parts[2..] else [])
  }

  /** A 2WL frame of plain fields, padded with whitespace, yields exactly its records. */
  lemma Parse2WLOfFrame(ws1: string, count: string, records: seq<string>, ws2: string)
    requires AllWhitespace(ws1) && AllWhitespace(ws2)
    requires Plain(count) && forall i :: 0 <= i < |records| ==> Plain(records[i])
    ensures Parse2WLResponse(ws1 + Frame(["2WL", count] + records) + ws2) == Some(records)
  {
    var fs := ["2WL", count] + records;
    QuoteFreePlain("2WL");
    assert forall i :: 0 <= i < |fs| ==> Plain(fs[i]) by {
      forall i | 0 <= i < |fs| ensures Plain(fs[i]) {
        if i >= 2 {
          assert fs[i] == records[i - 2];
        }
      }
    }
    FieldsOfFrame(ws1, fs, ws2);
    assert fs[2..] == records;
  }

  // ---------------------------------------------------------------- records

  /** The decoded form of one hex record. */
  datatype Datapoint =
    | MainValues(tempSec: int, stato: int, errore: int, tempPrinc: int, posPunto: int)
    | StateInfo(statoCrono: int, potenza: char, lingua: int, ricetta: int, rs485Addr: int,
                termostato: Option<int>, infoPosPunto: Option<int>)
    | StateText(id: int, text: string)
    | Parameter(id: int, valore: int, min: int, max: int, readOnly: bool, posPunto: int)
    | Sensor(id: int, valore: int, min: int, max: int, readOnly: bool)
    | Thermostat(id: int, abilitazione: int, status: int, valore: int, min: int, max: int, temperatura: int)
    | ThermostatV2(id: int, valore: int, min: int, max: int, temperatura: int, posPunto: int)
    | Power(id: int, valore: int, min: int, max: int)
    | CronoEnable(id: int, stato: int, modalita: int)
    | Unknown(raw: string)

  /** The type byte a decoded record came from. */
  function TypeByte(d: Datapoint): nat
    requires !d.Unknown?
  {
    match d
    case MainValues(_, _, _, _, _) => 0x10
    case StateInfo(_, _, _, _, _, _, _) => 0x0c
    case StateText(_, _) => 0x0c
    case Parameter(_, _, _, _, _, _) => 0x0e
    case Sensor(_, _, _, _, _) => 0x12
    case Thermostat(_, _, _, _, _, _, _) => 0x01
    case ThermostatV2(_, _, _, _, _, _) => 0x22
    case Power(_, _, _, _) => 0x06
    case CronoEnable(_, _, _) => 0x08
  }

  /** The type bytes the decoder knows; 0x08 only in the build that decodes crono_enb. */
  predicate KnownType(t: nat, withCrono: bool) {
    t == 0x10 || t == 0x0c || t == 0x0e || t == 0x12 || t == 0x01 || t == 0x22 || t == 0x06
    || (withCrono && t == 0x08)
  }

  /** `parseInt(h.slice(from, to), 16)`. */
  function F(h: string, from: nat, to: nat): Option<nat> {
    HexField(Slice(h, from, to))
  }

  /** A one-byte field: at most two hex digits. */
  function ByteAt(h: string, i: nat): (r: Option<nat>)
    ensures r.Some? ==> r.value < 256
  {
    var s := Slice(h, i, i + 2);
    assert |s| <= 2;
    assert Pow16(|s|) <= 256;
    HexField(s)
  }

  function DecodeMainValues(h: string): Option<Datapoint> {
    var tempSec, stato, errore, tempPrinc := F(h, 6, 10), F(h, 10, 12), F(h, 12, 14), F(h, 20, 24);
    var posPunto := if |h| > 36 then F(h, 36, 38) else Some(0);
    if tempSec.Some? && stato.Some? && errore.Some? && tempPrinc.Some? && posPunto.Some? then
      Some(MainValues(Signed16(tempSec.value), stato.value, errore.value,
                      Signed16(tempPrinc.value), posPunto.value))
    else None
  }

  function DecodeStateInfo(h: string): Option<Datapoint> {
    var statoCrono, potenza := F(h, 4, 6), ByteAt(h, 6);
    var lingua, ricetta, rs485Addr := F(h, 8, 10), F(h, 10, 12), F(h, 12, 14);
    var termostato := if |h| >= 28 then F(h, 24, 28) else None;
    var posPunto := if |h| >= 30 then F(h, 28, 30) else None;
    if statoCrono.Some? && potenza.Some? && lingua.Some? && ricetta.Some? && rs485Addr.Some?
       && (|h| >= 28 ==> termostato.Some?) && (|h| >= 30 ==> posPunto.Some?) then
      Some(StateInfo(statoCrono.value, potenza.value as char, lingua.value, ricetta.value,
                     rs485Addr.value, OptionInt(termostato), OptionInt(posPunto)))
    else None
  }

  function OptionInt(o: Option<nat>): (r: Option<int>)
    ensures r.Some? <==> o.Some?
    ensures r.Some? ==> r.value == o.value
  {
    match o
    case None => None
    case Some(n) => Some(n)
  }

  /**
   * The text of a state_text record from character `i` on: one character per two hex
   * digits, the last one possibly a single digit; None when a pair is not hex.
   */
  function TextFrom(h: string, i: nat): (r: Option<string>)
    ensures r.Some? ==> 2 * |r.value| >= |h| - i
    decreases |h| - i
  {
    if i >= |h| then Some([])
    else
      match ByteAt(h, i)
      case None => None
      case Some(b) =>
        match TextFrom(h, i + 2)
        case None => None
        case Some(rest) => Some([b as char] + rest)
  }

  /** The sub-types of a 0x0c record that carry text. */
  predicate IsTextSubtype(sub: string) {
    sub == "00" || sub == "01" || sub == "80"
  }

  function DecodeStateText(h: string): Option<Datapoint>
    requires IsTextSubtype(Slice(h, 2, 4))
  {
    var sub := Slice(h, 2, 4);
    match TextFrom(h, 4)
    case None => None
    case Some(text) => Some(StateText(HexValue(sub), text))
  }

  function DecodeParameter(h: string): Option<Datapoint> {
    var id, valore, min, max, ro := F(h, 2, 6), F(h, 6, 10), F(h, 10, 14), F(h, 14, 18), F(h, 18, 20);
    var posPunto := if |h| > 20 then F(h, 20, 22) else Some(0);
    if id.Some? && valore.Some? && min.Some? && max.Some? && ro.Some? && posPunto.Some? then
      Some(Parameter(id.value, Signed16(valore.value), Signed16(min.value), Signed16(max.value),
                     ro.value != 0, posPunto.value))
    else None
  }

  function DecodeSensor(h: string): Option<Datapoint> {
    var id, valore, min, max, ro := F(h, 2, 6), F(h, 6, 10), F(h, 10, 14), F(h, 14, 18), F(h, 18, 20);
    if id.Some? && valore.Some? && min.Some? && max.Some? && ro.Some? then
      Some(Sensor(id.value, Signed16(valore.value), Signed16(min.value), Signed16(max.value),
                  ro.value != 0))
    else None
  }

  function DecodeThermostat(h: string): Option<Datapoint> {
    var id, abilitazione, status := F(h, 2, 4), F(h, 6, 8), F(h, 8, 10);
    var valore, min, max, temperatura := F(h, 10, 12), F(h, 12, 14), F(h, 14, 16), F(h, 18, 20);
    if id.Some? && abilitazione.Some? && status.Some? && valore.Some? && min.Some? && max.Some?
       && temperatura.Some? then
      Some(Thermostat(id.value, abilitazione.value, status.value, valore.value, min.value,
                      max.value, temperatura.value))
    else None
  }

  function DecodeThermostatV2(h: string): Option<Datapoint> {
    var id, valore, min, max := F(h, 2, 4), F(h, 10, 14), F(h, 14, 18), F(h, 18, 22);
    var temperatura := F(h, 26, 30);
    var posPunto := if |h| > 30 then F(h, 30, 32) else Some(0);
    if id.Some? && valore.Some? && min.Some? && max.Some? && temperatura.Some? && posPunto.Some? then
      Some(ThermostatV2(id.value, Signed16(valore.value), Signed16(min.value), Signed16(max.value),
                        Signed16(temperatura.value), posPunto.value))
    else None
  }

  function DecodePower(h: string): Option<Datapoint> {
    var id, valore, min, max := F(h, 2, 4), F(h, 4, 6), F(h, 6, 8), F(h, 8, 10);
    if id.Some? && valore.Some? && min.Some? && max.Some? then
      Some(Power(id.value, valore.value, min.value, max.value))
    else None
  }

  function DecodeCronoEnable(h: string): Option<Datapoint> {
    var id, stato, modalita := F(h, 2, 4), F(h, 4, 6), F(h, 6, 8);
    if id.Some? && stato.Some? && modalita.Some? then
      Some(CronoEnable(id.value, stato.value, modalita.value))
    else None
  }

  /** The branch of parseHexDatapoint taken for type byte `t`; None means `unknown`. */
  function DecodeRecord(t: nat, h: string, withCrono: bool): (r: Option<Datapoint>)
    ensures r.Some? ==> !r.value.Unknown? && TypeByte(r.value) == t && KnownType(t, withCrono)
  {
    if t == 0x10 then DecodeMainValues(h)
    else if t == 0x0c then
      var sub := Slice(h, 2, 4);
      if sub == "81" then DecodeStateInfo(h)
      else if IsTextSubtype(sub) then DecodeStateText(h)
      else None
    else if t == 0x0e then DecodeParameter(h)
    else if t == 0x12 then DecodeSensor(h)
    else if t == 0x01 then DecodeThermostat(h)
    else if t == 0x22 then DecodeThermostatV2(h)
    else if t == 0x06 then DecodePower(h)
    else if t == 0x08 && withCrono then DecodeCronoEnable(h)
    else None
  }

  /**
   * parseHexDatapoint, with or without the 0x08 crono_enb branch. A record shorter than four
   * characters, with an unknown type byte or 0x0c sub-type, or with a field that is not hex,
   * comes back as `unknown` carrying the record itself.
   */
  function ParseWith(h: string, withCrono: bool): (r: Datapoint)
    ensures |h| < 4 ==> r == Unknown(h)
    ensures r.Unknown? ==> r.raw == h
    ensures !r.Unknown? ==> |h| >= 4 && F(h, 0, 2) == Some(TypeByte(r)) && KnownType(TypeByte(r), withCrono)
    ensures r.StateInfo? ==> Slice(h, 2, 4) == "81"
    ensures r.StateText? ==> IsTextSubtype(Slice(h, 2, 4)) && r.id == HexValue(Slice(h, 2, 4))
  {
    if |h| < 4 then Unknown(h)
    else
      match F(h, 0, 2)
      case None => Unknown(h)
      case Some(t) =>
        match DecodeRecord(t, h, withCrono)
        case None => Unknown(h)
        case Some(d) => d
  }

  /** parseHexDatapoint as the TypeScript source has it: no crono_enb records. */
  function ParseHexDatapoint(h: string): (r: Datapoint)
    ensures !r.CronoEnable?
    ensures |h| < 4 ==> r == Unknown(h)
    ensures r.Unknown? ==> r.raw == h
    ensures !r.Unknown? ==> F(h, 0, 2) == Some(TypeByte(r)) && KnownType(TypeByte(r), false)
    ensures r.StateInfo? ==> Slice(h, 2, 4) == "81"
    ensures r.StateText? ==> IsTextSubtype(Slice(h, 2, 4)) && r.id == HexValue(Slice(h, 2, 4))
  {
    ParseWith(h, false)
  }

  /** parseHexDatapoint as the compiled build has it, which also decodes 0x08 crono_enb records. */
  function ParseHexDatapointDist(h: string): (r: Datapoint)
    ensures |h| < 4 ==> r == Unknown(h)
    ensures r.Unknown? ==> r.raw == h
    ensures !r.Unknown? ==> F(h, 0, 2) == Some(TypeByte(r)) && KnownType(TypeByte(r), true)
    ensures r.StateInfo? ==> Slice(h, 2, 4) == "81"
    ensures r.StateText? ==> IsTextSubtype(Slice(h, 2, 4)) && r.id == HexValue(Slice(h, 2, 4))
  {
    ParseWith(h, true)
  }

  /** The two builds agree on every record except crono_enb, which the source leaves unknown. */
  lemma ParseBuildsAgree(h: string)
    ensures ParseHexDatapoint(h) == (if ParseHexDatapointDist(h).CronoEnable? then Unknown(h)
                                     else ParseHexDatapointDist(h))
  {
  }

  /** Any type byte outside the known set, and any other 0x0c sub-type, decodes as unknown. */
  lemma UnknownTypes(h: string)
    requires |h| >= 4
    requires F(h, 0, 2).None? || !KnownType(F(h, 0, 2).value, false)
             || (F(h, 0, 2) == Some(0x0c) && Slice(h, 2, 4) != "81" && !IsTextSubtype(Slice(h, 2, 4)))
    ensures ParseHexDatapoint(h) == Unknown(h)
  {
  }

  /**
   * The layout of a type 0x0e parameter record: a record of that type decodes as a parameter
   * exactly when its fields are hex, and then each field sits at its fixed offset.
   */
  lemma ParameterLayout(h: string)
    requires |h| >= 4 && F(h, 0, 2) == Some(0x0e)
    ensures ParseHexDatapoint(h).Parameter? <==>
      F(h, 2, 6).Some? && F(h, 6, 10).Some? && F(h, 10, 14).Some? && F(h, 14, 18).Some?
      && F(h, 18, 20).Some? && (|h| > 20 ==> F(h, 20, 22).Some?)
    ensures var p := ParseHexDatapoint(h);
      p.Parameter? ==>
        F(h, 2, 6) == Some(p.id)
        && F(h, 6, 10) == Some(Word16(p.valore))
        && F(h, 10, 14) == Some(Word16(p.min))
        && F(h, 14, 18) == Some(Word16(p.max))
        && (p.readOnly <==> F(h, 18, 20) != Some(0))
        && (if |h| > 20 then F(h, 20, 22) == Some(p.posPunto) else p.posPunto == 0)
  {
    assert ParseHexDatapoint(h) == (if DecodeParameter(h).Some? then DecodeParameter(h).value else Unknown(h));
    var p := ParseHexDatapoint(h);
    if p.Parameter? {
      Word16Signed16(F(h, 6, 10).value);
      Word16Signed16(F(h, 10, 14).value);
      Word16Signed16(F(h, 14, 18).value);
    }
  }

  /**
   * The layout of a type 0x10 main-values record: temperatures are signed words at [6,10) and
   * [20,24), stato and errore the bytes at [10,12) and [12,14), posPunto the byte at [36,38)
   * when the record is longer than 36 characters and 0 otherwise.
   */
  lemma MainValuesLayout(h: string)
    requires |h| >= 4 && F(h, 0, 2) == Some(0x10)
    ensures ParseHexDatapoint(h).MainValues? <==>
      F(h, 6, 10).Some? && F(h, 10, 12).Some? && F(h, 12, 14).Some? && F(h, 20, 24).Some?
      && (|h| > 36 ==> F(h, 36, 38).Some?)
    ensures var m := ParseHexDatapoint(h);
      m.MainValues? ==>
        F(h, 6, 10) == Some(Word16(m.tempSec))
        && F(h, 10, 12) == Some(m.stato)
        && F(h, 12, 14) == Some(m.errore)
        && F(h, 20, 24) == Some(Word16(m.tempPrinc))
        && (if |h| > 36 then F(h, 36, 38) == Some(m.posPunto) else m.posPunto == 0)
  {
    assert ParseHexDatapoint(h) == (if DecodeMainValues(h).Some? then DecodeMainValues(h).value else Unknown(h));
    var m := ParseHexDatapoint(h);
    if m.MainValues? {
      Word16Signed16(F(h, 6, 10).value);
      Word16Signed16(F(h, 20, 24).value);
    }
  }

  /** The layout of a type 0x08 crono_enb record: id, stato and modalita are bytes 1, 2 and 3. */
  lemma CronoEnableLayout(h: string)
    requires |h| >= 4 && F(h, 0, 2) == Some(0x08)
    ensures ParseHexDatapointDist(h).CronoEnable? <==>
      F(h, 2, 4).Some? && F(h, 4, 6).Some? && F(h, 6, 8).Some?
    ensures var c := ParseHexDatapointDist(h);
      c.CronoEnable? ==> F(h, 2, 4) == Some(c.id) && F(h, 4, 6) == Some(c.stato) && F(h, 6, 8) == Some(c.modalita)
  {
    assert ParseHexDatapointDist(h) == (if DecodeCronoEnable(h).Some? then DecodeCronoEnable(h).value else Unknown(h));
  }

  /**
   * The state_text loop: one character per pair of hex digits from character 4 on,
   * accumulated left to right. None when a pair is not hex (the record is then unknown).
   */
  method StateTextLoop(h: string) returns (text: Option<string>)
    ensures text == TextFrom(h, 4)
  {
    var acc := "";
    var i := 4;
    AfterEmpty(TextFrom(h, 4));
    while i < |h|
      invariant i >= 4
      invariant TextFrom(h, 4) == After(acc, TextFrom(h, i))
      decreases |h| - i
    {
      var b := ByteAt(h, i);
      TextFromStep(h, i);
      if b.None? {
        return None;
      }
      var c := b.value as char;
      AfterAppend(acc, c, TextFrom(h, i + 2));
      acc := acc + [c];
      i := i + 2;
    }
    assert acc + [] == acc;
    text := Some(acc);
  }

  /** Text still to come, placed after what was read so far. */
  function After(acc: string, rest: Option<string>): (r: Option<string>)
    ensures r.Some? <==> rest.Some?
    ensures r.Some? ==> |r.value| == |acc| + |rest.value| && r.value[..|acc|] == acc
  {
    match rest
    case None => None
    case Some(t) => Some(acc + t)
  }

  lemma AfterEmpty(rest: Option<string>)
    ensures After("", rest) == rest
  {
    if rest.Some? {
      assert "" + rest.value == rest.value;
    }
  }

  lemma AfterAppend(acc: string, c: char, rest: Option<string>)
    ensures After(acc, After([c], rest)) == After(acc + [c], rest)
  {
    if rest.Some? {
      assert acc + ([c] + rest.value) == (acc + [c]) + rest.value;
    }
  }

  lemma TextFromStep(h: string, i: nat)
    requires i < |h|
    ensures ByteAt(h, i).None? ==> TextFrom(h, i) == None
    ensures ByteAt(h, i).Some? ==> TextFrom(h, i) == After([ByteAt(h, i).value as char], TextFrom(h, i + 2))
  {
  }

  // ---------------------------------------------------------------- reference encoders

  predicate IsByte(n: int) {
    0 <= n < 256
  }

  predicate IsWord(n: int) {
    0 <= n < 65536
  }

  predicate IsInt16(n: int) {
    -32768 <= n < 32768
  }

  /** A text whose every character fits a byte. */
  predicate IsByteText(t: string) {
    forall k :: 0 <= k < |t| ==> (t[k] as int) < 256
  }

  /** The records a device can send: every field fits its width. */
  predicate Encodable(d: Datapoint) {
    match d
    case MainValues(tempSec, stato, errore, tempPrinc, posPunto) =>
      IsInt16(tempSec) && IsByte(stato) && IsByte(errore) && IsInt16(tempPrinc) && IsByte(posPunto)
    case StateInfo(statoCrono, potenza, lingua, ricetta, rs485Addr, termostato, infoPosPunto) =>
      IsByte(statoCrono) && (potenza as int) < 256 && IsByte(lingua) && IsByte(ricetta)
      && IsByte(rs485Addr) && (termostato.Some? ==> IsWord(termostato.value))
      && (infoPosPunto.Some? ==> termostato.Some? && IsByte(infoPosPunto.value))
    case StateText(id, text) => (id == 0 || id == 1 || id == 0x80) && IsByteText(text)
    case Parameter(id, valore, min, max, _, posPunto) =>
      IsWord(id) && IsInt16(valore) && IsInt16(min) && IsInt16(max) && IsByte(posPunto)
    case Sensor(id, valore, min, max, _) =>
      IsWord(id) && IsInt16(valore) && IsInt16(min) && IsInt16(max)
    case Thermostat(id, abilitazione, status, valore, min, max, temperatura) =>
      IsByte(id) && IsByte(abilitazione) && IsByte(status) && IsByte(valore) && IsByte(min)
      && IsByte(max) && IsByte(temperatura)
    case ThermostatV2(id, valore, min, max, temperatura, posPunto) =>
      IsByte(id) && IsInt16(valore) && IsInt16(min) && IsInt16(max) && IsInt16(temperatura)
      && IsByte(posPunto)
    case Power(id, valore, min, max) => IsByte(id) && IsByte(valore) && IsByte(min) && IsByte(max)
    case CronoEnable(id, stato, modalita) => IsByte(id) && IsByte(stato) && IsByte(modalita)
    case Unknown(_) => false
  }

  function TextHex(t: string): (r: string)
    requires IsByteText(t)
    ensures |r| == 2 * |t| && IsHexString(r)
  {
    if |t| == 0 then [] else Hex2(t[0] as int) + TextHex(t[1..])
  }

  /** The flag byte of a parameter or sensor record. */
  function FlagHex(readOnly: bool): string {
    if readOnly then "01" else "00"
  }

  function EncodeMainValues(tempSec: int, stato: int, errore: int, tempPrinc: int, posPunto: int): (r: string)
    requires IsInt16(tempSec) && IsByte(stato) && IsByte(errore) && IsInt16(tempPrinc) && IsByte(posPunto)
    ensures |r| == 38
  {
    "10" + "0000" + Hex4(Word16(tempSec)) + Hex2(stato) + Hex2(errore) + "000000"
    + Hex4(Word16(tempPrinc)) + "000000000000" + Hex2(posPunto)
  }

  function EncodeStateInfo(statoCrono: int, potenza: char, lingua: int, ricetta: int, rs485Addr: int,
                           termostato: Option<int>, posPunto: Option<int>): (r: string)
    requires IsByte(statoCrono) && (potenza as int) < 256 && IsByte(lingua) && IsByte(ricetta)
    requires IsByte(rs485Addr) && (termostato.Some? ==> IsWord(termostato.value))
    requires posPunto.Some? ==> termostato.Some? && IsByte(posPunto.value)
    ensures |r| == if posPunto.Some? then 30 else if termostato.Some? then 28 else 14
  {
    "0c81" + Hex2(statoCrono) + Hex2(potenza as int) + Hex2(lingua) + Hex2(ricetta) + Hex2(rs485Addr)
    + (if termostato.Some? then "0000000000" + Hex4(termostato.value) else "")
    + (if posPunto.Some? then Hex2(posPunto.value) else "")
  }

  function EncodeStateText(id: int, text: string): (r: string)
    requires (id == 0 || id == 1 || id == 0x80) && IsByteText(text)
    ensures |r| == 4 + 2 * |text|
  {
    "0c" + Hex2(id) + TextHex(text)
  }

  function EncodeParameter(id: int, valore: int, min: int, max: int, readOnly: bool, posPunto: int): (r: string)
    requires IsWord(id) && IsInt16(valore) && IsInt16(min) && IsInt16(max) && IsByte(posPunto)
    ensures |r| == 22
  {
    "0e" + Hex4(id) + Hex4(Word16(valore)) + Hex4(Word16(min)) + Hex4(Word16(max))
    + FlagHex(readOnly) + Hex2(posPunto)
  }

  function EncodeSensor(id: int, valore: int, min: int, max: int, readOnly: bool): (r: string)
    requires IsWord(id) && IsInt16(valore) && IsInt16(min) && IsInt16(max)
    ensures |r| == 20
  {
    "12" + Hex4(id) + Hex4(Word16(valore)) + Hex4(Word16(min)) + Hex4(Word16(max)) + FlagHex(readOnly)
  }

  function EncodeThermostat(id: int, abilitazione: int, status: int, valore: int, min: int, max: int,
                            temperatura: int): (r: string)
    requires IsByte(id) && IsByte(abilitazione) && IsByte(status) && IsByte(valore)
    requires IsByte(min) && IsByte(max) && IsByte(temperatura)
    ensures |r| == 20
  {
    "01" + Hex2(id) + "00" + Hex2(abilitazione) + Hex2(status) + Hex2(valore) + Hex2(min)
    + Hex2(max) + "00" + Hex2(temperatura)
  }

  function EncodeThermostatV2(id: int, valore: int, min: int, max: int, temperatura: int, posPunto: int): (r: string)
    requires IsByte(id) && IsInt16(valore) && IsInt16(min) && IsInt16(max) && IsInt16(temperatura)
    requires IsByte(posPunto)
  {
    "22" + Hex2(id) + "000000" + Hex4(Word16(valore)) + Hex4(Word16(min)) + Hex4(Word16(max))
    + "0000" + Hex4(Word16(temperatura)) + Hex2(posPunto)
  }

  function EncodePower(id: int, valore: int, min: int, max: int): (r: string)
    requires IsByte(id) && IsByte(valore) && IsByte(min) && IsByte(max)
    ensures |r| == 10
  {
    "06" + Hex2(id) + Hex2(valore) + Hex2(min) + Hex2(max)
  }

  function EncodeCronoEnable(id: int, stato: int, modalita: int): (r: string)
    requires IsByte(id) && IsByte(stato) && IsByte(modalita)
    ensures |r| == 8
  {
    "08" + Hex2(id) + Hex2(stato) + Hex2(modalita)
  }

  /**
   * The record a device sends for a decoded value, laid out at the offsets the decoder reads;
   * bytes the decoder skips are written as zeros.
   */
  function Encode(d: Datapoint): (r: string)
    requires Encodable(d)
    ensures |r| >= 4
  {
    match d
    case MainValues(tempSec, stato, errore, tempPrinc, posPunto) =>
      EncodeMainValues(tempSec, stato, errore, tempPrinc, posPunto)
    case StateInfo(statoCrono, potenza, lingua, ricetta, rs485Addr, termostato, infoPosPunto) =>
      EncodeStateInfo(statoCrono, potenza, lingua, ricetta, rs485Addr, termostato, infoPosPunto)
    case StateText(id, text) => EncodeStateText(id, text)
    case Parameter(id, valore, min, max, readOnly, posPunto) =>
      EncodeParameter(id, valore, min, max, readOnly, posPunto)
    case Sensor(id, valore, min, max, readOnly) => EncodeSensor(id, valore, min, max, readOnly)
    case Thermostat(id, abilitazione, status, valore, min, max, temperatura) =>
      EncodeThermostat(id, abilitazione, status, valore, min, max, temperatura)
    case ThermostatV2(id, valore, min, max, temperatura, posPunto) =>
      EncodeThermostatV2(id, valore, min, max, temperatura, posPunto)
    case Power(id, valore, min, max) => EncodePower(id, valore, min, max)
    case CronoEnable(id, stato, modalita) => EncodeCronoEnable(id, stato, modalita)
  }

  // ---------------------------------------------------------------- decoding the encoders

  /** Parsing a record whose type byte is known takes that type's branch. */
  lemma ParseKnown(h: string, t: nat, withCrono: bool)
    requires |h| >= 4 && F(h, 0, 2) == Some(t)
    requires DecodeRecord(t, h, withCrono).Some?
    ensures ParseWith(h, withCrono) == DecodeRecord(t, h, withCrono).value
  {
  }

  /** The values of the type bytes and sub-types as written in records. */
  lemma TypeCodes()
    ensures IsHexString("0e") && HexValue("0e") == 0x0e
    ensures IsHexString("0c") && HexValue("0c") == 0x0c
  {
    assert "0e"[..1] == "0";
    assert "0c"[..1] == "0";
    assert HexValue("0") == 0;
  }

  /** A field cut where hex digits were written reads back their value. */
  lemma FieldIs(e: string, from: nat, to: nat, x: string)
    requires Slice(e, from, to) == x && |x| > 0 && IsHexString(x)
    ensures F(e, from, to) == Some(HexValue(x))
  {
  }

  /** Cutting before the end of a prefix cuts the prefix. */
  lemma SlicePrefix(e: string, n: nat, from: nat, to: nat)
    requires from <= to <= n <= |e|
    ensures Slice(e[..n], from, to) == Slice(e, from, to)
  {
  }

  lemma Hex2Flag(readOnly: bool)
    ensures IsHexString(FlagHex(readOnly)) && HexField(FlagHex(readOnly)) == Some(if readOnly then 1 else 0)
  {
    assert HexField("01") == Some(1);
    assert HexField("00") == Some(0);
  }

  lemma MainValuesSlices(ts: string, st: string, er: string, tp: string, pp: string)
    requires |ts| == 4 && |st| == 2 && |er| == 2 && |tp| == 4 && |pp| == 2
    ensures var e := "10" + "0000" + ts + st + er + "000000" + tp + "000000000000" + pp;
      Slice(e, 0, 2) == "10" && Slice(e, 6, 10) == ts && Slice(e, 10, 12) == st
      && Slice(e, 12, 14) == er && Slice(e, 20, 24) == tp && Slice(e, 36, 38) == pp
  {
    var e := "10" + "0000" + ts + st + er + "000000" + tp + "000000000000" + pp;
    assert e[0..2] == "10";
    assert e[6..10] == ts;
    assert e[10..12] == st;
    assert e[12..14] == er;
    assert e[20..24] == tp;
    assert e[36..38] == pp;
  }

  lemma {:induction false} MainValuesFieldsOf(ts: string, st: string, er: string, tp: string, pp: string)
    requires |ts| == 4 && |st| == 2 && |er| == 2 && |tp| == 4 && |pp| == 2
    requires IsHexString(ts) && IsHexString(st) && IsHexString(er) && IsHexString(tp) && IsHexString(pp)
    ensures var e := "10" + "0000" + ts + st + er + "000000" + tp + "000000000000" + pp;
      |e| == 38
      && F(e, 0, 2) == Some(0x10) && F(e, 6, 10) == Some(HexValue(ts)) && F(e, 10, 12) == Some(HexValue(st))
      && F(e, 12, 14) == Some(HexValue(er)) && F(e, 20, 24) == Some(HexValue(tp))
      && F(e, 36, 38) == Some(HexValue(pp))
      && F(e[..36], 0, 2) == Some(0x10) && F(e[..36], 6, 10) == Some(HexValue(ts))
      && F(e[..36], 10, 12) == Some(HexValue(st)) && F(e[..36], 12, 14) == Some(HexValue(er))
      && F(e[..36], 20, 24) == Some(HexValue(tp))
  {
    var e := "10" + "0000" + ts + st + er + "000000" + tp + "000000000000" + pp;
    MainValuesSlices(ts, st, er, tp, pp);
    FieldIs(e, 0, 2, "10");
    FieldIs(e, 6, 10, ts);
    FieldIs(e, 10, 12, st);
    FieldIs(e, 12, 14, er);
    FieldIs(e, 20, 24, tp);
    FieldIs(e, 36, 38, pp);
    SlicePrefix(e, 36, 0, 2);
    SlicePrefix(e, 36, 6, 10);
    SlicePrefix(e, 36, 10, 12);
    SlicePrefix(e, 36, 12, 14);
    SlicePrefix(e, 36, 20, 24);
  }

  lemma MainValuesDecodes(e: string, tempSec: int, stato: int, errore: int, tempPrinc: int, posPunto: int)
    requires IsInt16(tempSec) && IsInt16(tempPrinc)
    requires |e| >= 36 && F(e, 0, 2) == Some(0x10) && F(e, 6, 10) == Some(Word16(tempSec))
    requires F(e, 10, 12) == Some(stato) && F(e, 12, 14) == Some(errore)
    requires F(e, 20, 24) == Some(Word16(tempPrinc))
    requires if |e| > 36 then F(e, 36, 38) == Some(posPunto) else posPunto == 0
    ensures ParseHexDatapoint(e) == MainValues(tempSec, stato, errore, tempPrinc, posPunto)
    ensures ParseHexDatapointDist(e) == MainValues(tempSec, stato, errore, tempPrinc, posPunto)
  {
    Signed16Word16(tempSec);
    Signed16Word16(tempPrinc);
    ParsesAs(e, 0x10, MainValues(tempSec, stato, errore, tempPrinc, posPunto));
  }

  /**
   * A main-values record reads back as the values written into it; without its last byte
   * (36 characters) it reads back with no decimals.
   */
  lemma MainValuesRoundTrip(tempSec: int, stato: int, errore: int, tempPrinc: int, posPunto: int)
    requires IsInt16(tempSec) && IsByte(stato) && IsByte(errore) && IsInt16(tempPrinc) && IsByte(posPunto)
    ensures var e := EncodeMainValues(tempSec, stato, errore, tempPrinc, posPunto);
      ParseHexDatapoint(e) == MainValues(tempSec, stato, errore, tempPrinc, posPunto)
      && ParseHexDatapoint(e[..36]) == MainValues(tempSec, stato, errore, tempPrinc, 0)
      && ParseHexDatapointDist(e) == ParseHexDatapoint(e)
      && ParseHexDatapointDist(e[..36]) == ParseHexDatapoint(e[..36])
  {
    var e := EncodeMainValues(tempSec, stato, errore, tempPrinc, posPunto);
    MainValuesFieldsOf(Hex4(Word16(tempSec)), Hex2(stato), Hex2(errore), Hex4(Word16(tempPrinc)),
                       Hex2(posPunto));
    MainValuesDecodes(e, tempSec, stato, errore, tempPrinc, posPunto);
    MainValuesDecodes(e[..36], tempSec, stato, errore, tempPrinc, 0);
  }

  lemma ParameterSlices(id: string, v: string, mn: string, mx: string, fl: string, pp: string)
    requires |id| == 4 && |v| == 4 && |mn| == 4 && |mx| == 4 && |fl| == 2 && |pp| == 2
    ensures var e := "0e" + id + v + mn + mx + fl + pp;
      Slice(e, 0, 2) == "0e" && Slice(e, 2, 6) == id && Slice(e, 6, 10) == v && Slice(e, 10, 14) == mn
      && Slice(e, 14, 18) == mx && Slice(e, 18, 20) == fl && Slice(e, 20, 22) == pp
  {
    var e := "0e" + id + v + mn + mx + fl + pp;
    assert e[0..2] == "0e";
    assert e[2..6] == id;
    assert e[6..10] == v;
    assert e[10..14] == mn;
    assert e[14..18] == mx;
    assert e[18..20] == fl;
    assert e[20..22] == pp;
  }

  lemma {:induction false} ParameterFieldsOf(i4: string, v4: string, mn4: string, mx4: string, fl: string, pp: string)
    requires |i4| == 4 && |v4| == 4 && |mn4| == 4 && |mx4| == 4 && |fl| == 2 && |pp| == 2
    requires IsHexString(i4) && IsHexString(v4) && IsHexString(mn4) && IsHexString(mx4)
    requires IsHexString(fl) && IsHexString(pp)
    ensures var e := "0e" + i4 + v4 + mn4 + mx4 + fl + pp;
      |e| == 22
      && F(e, 0, 2) == Some(0x0e) && F(e, 2, 6) == Some(HexValue(i4)) && F(e, 6, 10) == Some(HexValue(v4))
      && F(e, 10, 14) == Some(HexValue(mn4)) && F(e, 14, 18) == Some(HexValue(mx4))
      && F(e, 18, 20) == Some(HexValue(fl)) && F(e, 20, 22) == Some(HexValue(pp))
      && F(e[..20], 0, 2) == Some(0x0e) && F(e[..20], 2, 6) == Some(HexValue(i4))
      && F(e[..20], 6, 10) == Some(HexValue(v4)) && F(e[..20], 10, 14) == Some(HexValue(mn4))
      && F(e[..20], 14, 18) == Some(HexValue(mx4)) && F(e[..20], 18, 20) == Some(HexValue(fl))
  {
    var e := "0e" + i4 + v4 + mn4 + mx4 + fl + pp;
    TypeCodes();
    ParameterSlices(i4, v4, mn4, mx4, fl, pp);
    FieldIs(e, 0, 2, "0e");
    FieldIs(e, 2, 6, i4);
    FieldIs(e, 6, 10, v4);
    FieldIs(e, 10, 14, mn4);
    FieldIs(e, 14, 18, mx4);
    FieldIs(e, 18, 20, fl);
    FieldIs(e, 20, 22, pp);
    SlicePrefix(e, 20, 0, 2);
    SlicePrefix(e, 20, 2, 6);
    SlicePrefix(e, 20, 6, 10);
    SlicePrefix(e, 20, 10, 14);
    SlicePrefix(e, 20, 14, 18);
    SlicePrefix(e, 20, 18, 20);
  }

  lemma ParameterDecodes(e: string, id: int, valore: int, min: int, max: int, readOnly: bool, posPunto: int)
    requires IsInt16(valore) && IsInt16(min) && IsInt16(max)
    requires |e| >= 20 && F(e, 0, 2) == Some(0x0e) && F(e, 2, 6) == Some(id)
    requires F(e, 6, 10) == Some(Word16(valore)) && F(e, 10, 14) == Some(Word16(min))
    requires F(e, 14, 18) == Some(Word16(max)) && F(e, 18, 20) == Some(if readOnly then 1 else 0)
    requires if |e| > 20 then F(e, 20, 22) == Some(posPunto) else posPunto == 0
    ensures ParseHexDatapoint(e) == Parameter(id, valore, min, max, readOnly, posPunto)
    ensures ParseHexDatapointDist(e) == Parameter(id, valore, min, max, readOnly, posPunto)
  {
    Signed16Word16(valore);
    Signed16Word16(min);
    Signed16Word16(max);
    ParsesAs(e, 0x0e, Parameter(id, valore, min, max, readOnly, posPunto));
  }

  /**
   * A parameter record reads back as the values written into it; without its last byte
   * (20 characters) it reads back with no decimals.
   */
  lemma ParameterRoundTrip(id: int, valore: int, min: int, max: int, readOnly: bool, posPunto: int)
    requires IsWord(id) && IsInt16(valore) && IsInt16(min) && IsInt16(max) && IsByte(posPunto)
    ensures var e := EncodeParameter(id, valore, min, max, readOnly, posPunto);
      ParseHexDatapoint(e) == Parameter(id, valore, min, max, readOnly, posPunto)
      && ParseHexDatapoint(e[..20]) == Parameter(id, valore, min, max, readOnly, 0)
      && ParseHexDatapointDist(e) == ParseHexDatapoint(e)
      && ParseHexDatapointDist(e[..20]) == ParseHexDatapoint(e[..20])
  {
    var e := EncodeParameter(id, valore, min, max, readOnly, posPunto);
    Hex2Flag(readOnly);
    ParameterFieldsOf(Hex4(id), Hex4(Word16(valore)), Hex4(Word16(min)), Hex4(Word16(max)),
                      FlagHex(readOnly), Hex2(posPunto));
    ParameterDecodes(e, id, valore, min, max, readOnly, posPunto);
    ParameterDecodes(e[..20], id, valore, min, max, readOnly, 0);
  }

  lemma SensorSlices(id: string, v: string, mn: string, mx: string, fl: string)
    requires |id| == 4 && |v| == 4 && |mn| == 4 && |mx| == 4 && |fl| == 2
    ensures var e := "12" + id + v + mn + mx + fl;
      Slice(e, 0, 2) == "12" && Slice(e, 2, 6) == id && Slice(e, 6, 10) == v && Slice(e, 10, 14) == mn
      && Slice(e, 14, 18) == mx && Slice(e, 18, 20) == fl
  {
    var e := "12" + id + v + mn + mx + fl;
    assert e[0..2] == "12";
    assert e[2..6] == id;
    assert e[6..10] == v;
    assert e[10..14] == mn;
    assert e[14..18] == mx;
    assert e[18..20] == fl;
  }

  lemma {:induction false} SensorFieldsOf(i4: string, v4: string, mn4: string, mx4: string, fl: string)
    requires |i4| == 4 && |v4| == 4 && |mn4| == 4 && |mx4| == 4 && |fl| == 2
    requires IsHexString(i4) && IsHexString(v4) && IsHexString(mn4) && IsHexString(mx4) && IsHexString(fl)
    ensures var e := "12" + i4 + v4 + mn4 + mx4 + fl;
      |e| == 20 && F(e, 0, 2) == Some(0x12) && F(e, 2, 6) == Some(HexValue(i4))
      && F(e, 6, 10) == Some(HexValue(v4)) && F(e, 10, 14) == Some(HexValue(mn4))
      && F(e, 14, 18) == Some(HexValue(mx4)) && F(e, 18, 20) == Some(HexValue(fl))
  {
    var e := "12" + i4 + v4 + mn4 + mx4 + fl;
    SensorSlices(i4, v4, mn4, mx4, fl);
    FieldIs(e, 0, 2, "12");
    FieldIs(e, 2, 6, i4);
    FieldIs(e, 6, 10, v4);
    FieldIs(e, 10, 14, mn4);
    FieldIs(e, 14, 18, mx4);
    FieldIs(e, 18, 20, fl);
  }

  /** A record whose type byte is known and whose branch decodes it parses the same in both builds. */
  lemma ParsesAs(e: string, t: nat, d: Datapoint)
    requires |e| >= 4 && F(e, 0, 2) == Some(t)
    requires DecodeRecord(t, e, false) == Some(d) && DecodeRecord(t, e, true) == Some(d)
    ensures ParseHexDatapoint(e) == d && ParseHexDatapointDist(e) == d
  {
    ParseKnown(e, t, false);
    ParseKnown(e, t, true);
  }

  /** A sensor record reads back as the values written into it. */
  lemma SensorRoundTrip(id: int, valore: int, min: int, max: int, readOnly: bool)
    requires IsWord(id) && IsInt16(valore) && IsInt16(min) && IsInt16(max)
    ensures var e := EncodeSensor(id, valore, min, max, readOnly);
      ParseHexDatapoint(e) == Sensor(id, valore, min, max, readOnly)
      && ParseHexDatapointDist(e) == ParseHexDatapoint(e)
  {
    var e := EncodeSensor(id, valore, min, max, readOnly);
    Hex2Flag(readOnly);
    SensorFieldsOf(Hex4(id), Hex4(Word16(valore)), Hex4(Word16(min)), Hex4(Word16(max)), FlagHex(readOnly));
    SensorDecodes(e, id, valore, min, max, readOnly);
  }

  lemma SensorDecodes(e: string, id: int, valore: int, min: int, max: int, readOnly: bool)
    requires IsInt16(valore) && IsInt16(min) && IsInt16(max)
    requires |e| >= 4 && F(e, 0, 2) == Some(0x12) && F(e, 2, 6) == Some(id)
    requires F(e, 6, 10) == Some(Word16(valore)) && F(e, 10, 14) == Some(Word16(min))
    requires F(e, 14, 18) == Some(Word16(max)) && F(e, 18, 20) == Some(if readOnly then 1 else 0)
    ensures ParseHexDatapoint(e) == Sensor(id, valore, min, max, readOnly)
    ensures ParseHexDatapointDist(e) == Sensor(id, valore, min, max, readOnly)
  {
    Signed16Word16(valore);
    Signed16Word16(min);
    Signed16Word16(max);
    ParsesAs(e, 0x12, Sensor(id, valore, min, max, readOnly));
  }

  lemma ThermostatSlices(id: string, ab: string, st: string, v: string, mn: string, mx: string, te: string)
    requires |id| == 2 && |ab| == 2 && |st| == 2 && |v| == 2 && |mn| == 2 && |mx| == 2 && |te| == 2
    ensures var e := "01" + id + "00" + ab + st + v + mn + mx + "00" + te;
      Slice(e, 0, 2) == "01" && Slice(e, 2, 4) == id && Slice(e, 6, 8) == ab && Slice(e, 8, 10) == st
      && Slice(e, 10, 12) == v && Slice(e, 12, 14) == mn && Slice(e, 14, 16) == mx
      && Slice(e, 18, 20) == te
  {
    var e := "01" + id + "00" + ab + st + v + mn + mx + "00" + te;
    assert e[0..2] == "01";
    assert e[2..4] == id;
    assert e[6..8] == ab;
    assert e[8..10] == st;
    assert e[10..12] == v;
    assert e[12..14] == mn;
    assert e[14..16] == mx;
    assert e[18..20] == te;
  }

  lemma {:induction false} ThermostatFieldsOf(i2: string, ab: string, st: string, v: string, mn: string,
                                              mx: string, te: string)
    requires |i2| == 2 && |ab| == 2 && |st| == 2 && |v| == 2 && |mn| == 2 && |mx| == 2 && |te| == 2
    requires IsHexString(i2) && IsHexString(ab) && IsHexString(st) && IsHexString(v)
    requires IsHexString(mn) && IsHexString(mx) && IsHexString(te)
    ensures var e := "01" + i2 + "00" + ab + st + v + mn + mx + "00" + te;
      |e| == 20 && F(e, 0, 2) == Some(0x01) && F(e, 2, 4) == Some(HexValue(i2))
      && F(e, 6, 8) == Some(HexValue(ab)) && F(e, 8, 10) == Some(HexValue(st))
      && F(e, 10, 12) == Some(HexValue(v)) && F(e, 12, 14) == Some(HexValue(mn))
      && F(e, 14, 16) == Some(HexValue(mx)) && F(e, 18, 20) == Some(HexValue(te))
  {
    var e := "01" + i2 + "00" + ab + st + v + mn + mx + "00" + te;
    ThermostatSlices(i2, ab, st, v, mn, mx, te);
    FieldIs(e, 0, 2, "01");
    FieldIs(e, 2, 4, i2);
    FieldIs(e, 6, 8, ab);
    FieldIs(e, 8, 10, st);
    FieldIs(e, 10, 12, v);
    FieldIs(e, 12, 14, mn);
    FieldIs(e, 14, 16, mx);
    FieldIs(e, 18, 20, te);
  }

  /** A thermostat record reads back as the values written into it. */
  lemma ThermostatRoundTrip(id: int, abilitazione: int, status: int, valore: int, min: int, max: int,
                            temperatura: int)
    requires IsByte(id) && IsByte(abilitazione) && IsByte(status) && IsByte(valore)
    requires IsByte(min) && IsByte(max) && IsByte(temperatura)
    ensures var e := EncodeThermostat(id, abilitazione, status, valore, min, max, temperatura);
      ParseHexDatapoint(e) == Thermostat(id, abilitazione, status, valore, min, max, temperatura)
      && ParseHexDatapointDist(e) == ParseHexDatapoint(e)
  {
    var e := EncodeThermostat(id, abilitazione, status, valore, min, max, temperatura);
    ThermostatFieldsOf(Hex2(id), Hex2(abilitazione), Hex2(status), Hex2(valore), Hex2(min), Hex2(max),
                       Hex2(temperatura));
    ThermostatDecodes(e, Thermostat(id, abilitazione, status, valore, min, max, temperatura));
  }

  lemma ThermostatDecodes(e: string, d: Datapoint)
    requires d.Thermostat?
    requires |e| >= 20 && F(e, 0, 2) == Some(0x01) && F(e, 2, 4) == Some(d.id)
    requires F(e, 6, 8) == Some(d.abilitazione) && F(e, 8, 10) == Some(d.status)
    requires F(e, 10, 12) == Some(d.valore) && F(e, 12, 14) == Some(d.min) && F(e, 14, 16) == Some(d.max)
    requires F(e, 18, 20) == Some(d.temperatura)
    ensures ParseHexDatapoint(e) == d && ParseHexDatapointDist(e) == d
  {
    ParsesAs(e, 0x01, d);
  }

  lemma ThermostatV2Slices(id: string, v: string, mn: string, mx: string, te: string, pp: string)
    requires |id| == 2 && |v| == 4 && |mn| == 4 && |mx| == 4 && |te| == 4 && |pp| == 2
    ensures var e := "22" + id + "000000" + v + mn + mx + "0000" + te + pp;
      |e| == 32 && Slice(e, 0, 2) == "22" && Slice(e, 2, 4) == id && Slice(e, 10, 14) == v
      && Slice(e, 14, 18) == mn && Slice(e, 18, 22) == mx && Slice(e, 26, 30) == te
      && Slice(e, 30, 32) == pp
  {
    var e := "22" + id + "000000" + v + mn + mx + "0000" + te + pp;
    assert e[0..2] == "22";
    assert e[2..4] == id;
    assert e[10..14] == v;
    assert e[14..18] == mn;
    assert e[18..22] == mx;
    assert e[26..30] == te;
    assert e[30..32] == pp;
  }

  lemma {:induction false} ThermostatV2FieldsOf(i2: string, v4: string, mn4: string, mx4: string, te4: string,
                                                pp: string)
    requires |i2| == 2 && |v4| == 4 && |mn4| == 4 && |mx4| == 4 && |te4| == 4 && |pp| == 2
    requires IsHexString(i2) && IsHexString(v4) && IsHexString(mn4) && IsHexString(mx4)
    requires IsHexString(te4) && IsHexString(pp)
    ensures var e := "22" + i2 + "000000" + v4 + mn4 + mx4 + "0000" + te4 + pp;
      |e| == 32
      && F(e, 0, 2) == Some(0x22) && F(e, 2, 4) == Some(HexValue(i2)) && F(e, 10, 14) == Some(HexValue(v4))
      && F(e, 14, 18) == Some(HexValue(mn4)) && F(e, 18, 22) == Some(HexValue(mx4))
      && F(e, 26, 30) == Some(HexValue(te4)) && F(e, 30, 32) == Some(HexValue(pp))
      && F(e[..30], 0, 2) == Some(0x22) && F(e[..30], 2, 4) == Some(HexValue(i2))
      && F(e[..30], 10, 14) == Some(HexValue(v4)) && F(e[..30], 14, 18) == Some(HexValue(mn4))
      && F(e[..30], 18, 22) == Some(HexValue(mx4)) && F(e[..30], 26, 30) == Some(HexValue(te4))
  {
    var e := "22" + i2 + "000000" + v4 + mn4 + mx4 + "0000" + te4 + pp;
    ThermostatV2Slices(i2, v4, mn4, mx4, te4, pp);
    FieldIs(e, 0, 2, "22");
    FieldIs(e, 2, 4, i2);
    FieldIs(e, 10, 14, v4);
    FieldIs(e, 14, 18, mn4);
    FieldIs(e, 18, 22, mx4);
    FieldIs(e, 26, 30, te4);
    FieldIs(e, 30, 32, pp);
    SlicePrefix(e, 30, 0, 2);
    SlicePrefix(e, 30, 2, 4);
    SlicePrefix(e, 30, 10, 14);
    SlicePrefix(e, 30, 14, 18);
    SlicePrefix(e, 30, 18, 22);
    SlicePrefix(e, 30, 26, 30);
  }

  lemma ThermostatV2Decodes(e: string, id: int, valore: int, min: int, max: int, temperatura: int, posPunto: int)
    requires IsInt16(valore) && IsInt16(min) && IsInt16(max) && IsInt16(temperatura)
    requires |e| >= 30 && F(e, 0, 2) == Some(0x22) && F(e, 2, 4) == Some(id)
    requires F(e, 10, 14) == Some(Word16(valore)) && F(e, 14, 18) == Some(Word16(min))
    requires F(e, 18, 22) == Some(Word16(max)) && F(e, 26, 30) == Some(Word16(temperatura))
    requires if |e| > 30 then F(e, 30, 32) == Some(posPunto) else posPunto == 0
    ensures ParseHexDatapoint(e) == ThermostatV2(id, valore, min, max, temperatura, posPunto)
    ensures ParseHexDatapointDist(e) == ThermostatV2(id, valore, min, max, temperatura, posPunto)
  {
    Signed16Word16(valore);
    Signed16Word16(min);
    Signed16Word16(max);
    Signed16Word16(temperatura);
    ParsesAs(e, 0x22, ThermostatV2(id, valore, min, max, temperatura, posPunto));
  }

  /**
   * A thermostat_v2 record reads back as the values written into it; without its last byte
   * (30 characters) it reads back with no decimals.
   */
  lemma ThermostatV2RoundTrip(id: int, valore: int, min: int, max: int, temperatura: int, posPunto: int)
    requires IsByte(id) && IsInt16(valore) && IsInt16(min) && IsInt16(max) && IsInt16(temperatura)
    requires IsByte(posPunto)
    ensures var e := EncodeThermostatV2(id, valore, min, max, temperatura, posPunto);
      ParseHexDatapoint(e) == ThermostatV2(id, valore, min, max, temperatura, posPunto)
      && ParseHexDatapoint(e[..30]) == ThermostatV2(id, valore, min, max, temperatura, 0)
      && ParseHexDatapointDist(e) == ParseHexDatapoint(e)
      && ParseHexDatapointDist(e[..30]) == ParseHexDatapoint(e[..30])
  {
    var e := EncodeThermostatV2(id, valore, min, max, temperatura, posPunto);
    ThermostatV2FieldsOf(Hex2(id), Hex4(Word16(valore)), Hex4(Word16(min)), Hex4(Word16(max)),
                         Hex4(Word16(temperatura)), Hex2(posPunto));
    ThermostatV2Decodes(e, id, valore, min, max, temperatura, posPunto);
    ThermostatV2Decodes(e[..30], id, valore, min, max, temperatura, 0);
  }

  lemma PowerSlices(id: string, v: string, mn: string, mx: string)
    requires |id| == 2 && |v| == 2 && |mn| == 2 && |mx| == 2
    ensures var e := "06" + id + v + mn + mx;
      Slice(e, 0, 2) == "06" && Slice(e, 2, 4) == id && Slice(e, 4, 6) == v && Slice(e, 6, 8) == mn
      && Slice(e, 8, 10) == mx
  {
    var e := "06" + id + v + mn + mx;
    assert e[0..2] == "06";
    assert e[2..4] == id;
    assert e[4..6] == v;
    assert e[6..8] == mn;
    assert e[8..10] == mx;
  }

  lemma {:induction false} PowerFieldsOf(i2: string, v: string, mn: string, mx: string)
    requires |i2| == 2 && |v| == 2 && |mn| == 2 && |mx| == 2
    requires IsHexString(i2) && IsHexString(v) && IsHexString(mn) && IsHexString(mx)
    ensures var e := "06" + i2 + v + mn + mx;
      |e| == 10 && F(e, 0, 2) == Some(0x06) && F(e, 2, 4) == Some(HexValue(i2))
      && F(e, 4, 6) == Some(HexValue(v)) && F(e, 6, 8) == Some(HexValue(mn)) && F(e, 8, 10) == Some(HexValue(mx))
  {
    var e := "06" + i2 + v + mn + mx;
    PowerSlices(i2, v, mn, mx);
    FieldIs(e, 0, 2, "06");
    FieldIs(e, 2, 4, i2);
    FieldIs(e, 4, 6, v);
    FieldIs(e, 6, 8, mn);
    FieldIs(e, 8, 10, mx);
  }

  /** A power record reads back as the values written into it. */
  lemma PowerRoundTrip(id: int, valore: int, min: int, max: int)
    requires IsByte(id) && IsByte(valore) && IsByte(min) && IsByte(max)
    ensures var e := EncodePower(id, valore, min, max);
      ParseHexDatapoint(e) == Power(id, valore, min, max) && ParseHexDatapointDist(e) == ParseHexDatapoint(e)
  {
    var e := EncodePower(id, valore, min, max);
    PowerFieldsOf(Hex2(id), Hex2(valore), Hex2(min), Hex2(max));
    ParsesAs(e, 0x06, Power(id, valore, min, max));
  }

  lemma CronoEnableSlices(id: string, st: string, mo: string)
    requires |id| == 2 && |st| == 2 && |mo| == 2
    ensures var e := "08" + id + st + mo;
      Slice(e, 0, 2) == "08" && Slice(e, 2, 4) == id && Slice(e, 4, 6) == st && Slice(e, 6, 8) == mo
  {
    var e := "08" + id + st + mo;
    assert e[0..2] == "08";
    assert e[2..4] == id;
    assert e[4..6] == st;
    assert e[6..8] == mo;
  }

  /**
   * A crono_enb record reads back as the values written into it in the build that decodes
   * it, and as unknown in the source, which has no branch for it.
   */
  lemma CronoEnableRoundTrip(id: int, stato: int, modalita: int)
    requires IsByte(id) && IsByte(stato) && IsByte(modalita)
    ensures var e := EncodeCronoEnable(id, stato, modalita);
      ParseHexDatapointDist(e) == CronoEnable(id, stato, modalita) && ParseHexDatapoint(e) == Unknown(e)
  {
    var e := EncodeCronoEnable(id, stato, modalita);
    var i2, st, mo := Hex2(id), Hex2(stato), Hex2(modalita);
    CronoEnableSlices(i2, st, mo);
    FieldIs(e, 0, 2, "08");
    FieldIs(e, 2, 4, i2);
    FieldIs(e, 4, 6, st);
    FieldIs(e, 6, 8, mo);
    ParseKnown(e, 0x08, true);
  }

  lemma {:induction false} StateInfoSlices(sc: string, po: string, li: string, ri: string, rs: string,
                                           tt: string, pp: string)
    requires |sc| == 2 && |po| == 2 && |li| == 2 && |ri| == 2 && |rs| == 2
    requires |tt| == 0 || |tt| == 14
    requires |pp| == 0 || (|pp| == 2 && |tt| == 14)
    ensures var e := "0c81" + sc + po + li + ri + rs + tt + pp;
      |e| == 14 + |tt| + |pp|
      && Slice(e, 0, 2) == "0c" && Slice(e, 2, 4) == "81" && Slice(e, 4, 6) == sc
      && Slice(e, 6, 8) == po && Slice(e, 8, 10) == li && Slice(e, 10, 12) == ri
      && Slice(e, 12, 14) == rs
      && (|tt| == 14 ==> Slice(e, 24, 28) == tt[10..14])
      && (|pp| == 2 ==> Slice(e, 28, 30) == pp)
  {
    var e := "0c81" + sc + po + li + ri + rs + tt + pp;
    assert e[0..2] == "0c";
    assert e[2..4] == "81";
    assert e[4..6] == sc;
    assert e[6..8] == po;
    assert e[8..10] == li;
    assert e[10..12] == ri;
    assert e[12..14] == rs;
    if |tt| == 14 {
      assert e[24..28] == tt[10..14];
    }
    if |pp| == 2 {
      assert e[28..30] == pp;
    }
  }

  /** The fields of an encoded state_info record, at the offsets the decoder reads. */
  lemma {:induction false} StateInfoFields(statoCrono: int, potenza: char, lingua: int, ricetta: int,
                                           rs485Addr: int, termostato: Option<int>, posPunto: Option<int>)
    requires IsByte(statoCrono) && (potenza as int) < 256 && IsByte(lingua) && IsByte(ricetta)
    requires IsByte(rs485Addr) && (termostato.Some? ==> IsWord(termostato.value))
    requires posPunto.Some? ==> termostato.Some? && IsByte(posPunto.value)
    ensures var e := EncodeStateInfo(statoCrono, potenza, lingua, ricetta, rs485Addr, termostato, posPunto);
      |e| >= 4 && F(e, 0, 2) == Some(0x0c) && Slice(e, 2, 4) == "81"
      && F(e, 4, 6) == Some(statoCrono) && ByteAt(e, 6) == Some(potenza as int)
      && F(e, 8, 10) == Some(lingua) && F(e, 10, 12) == Some(ricetta) && F(e, 12, 14) == Some(rs485Addr)
      && (|e| >= 28 <==> termostato.Some?) && (|e| >= 30 <==> posPunto.Some?)
      && (termostato.Some? ==> F(e, 24, 28) == Some(termostato.value))
      && (posPunto.Some? ==> F(e, 28, 30) == Some(posPunto.value))
  {
    var sc, po, li, ri, rs := Hex2(statoCrono), Hex2(potenza as int), Hex2(lingua), Hex2(ricetta), Hex2(rs485Addr);
    var tt := if termostato.Some? then "0000000000" + Hex4(termostato.value) else "";
    var pp := if posPunto.Some? then Hex2(posPunto.value) else "";
    var e := EncodeStateInfo(statoCrono, potenza, lingua, ricetta, rs485Addr, termostato, posPunto);
    assert e == "0c81" + sc + po + li + ri + rs + tt + pp;
    StateInfoSlices(sc, po, li, ri, rs, tt, pp);
    StateInfoHead(e, sc, po, li, ri, rs);
    StateInfoTail(e, termostato, posPunto, tt, pp);
  }

  lemma {:induction false} StateInfoHead(e: string, sc: string, po: string, li: string, ri: string, rs: string)
    requires Slice(e, 0, 2) == "0c" && Slice(e, 4, 6) == sc && Slice(e, 6, 8) == po
    requires Slice(e, 8, 10) == li && Slice(e, 10, 12) == ri && Slice(e, 12, 14) == rs
    requires |sc| == 2 && IsHexString(sc) && |po| == 2 && IsHexString(po) && |li| == 2 && IsHexString(li)
    requires |ri| == 2 && IsHexString(ri) && |rs| == 2 && IsHexString(rs)
    ensures F(e, 0, 2) == Some(0x0c) && F(e, 4, 6) == Some(HexValue(sc)) && ByteAt(e, 6) == Some(HexValue(po))
    ensures F(e, 8, 10) == Some(HexValue(li)) && F(e, 10, 12) == Some(HexValue(ri))
    ensures F(e, 12, 14) == Some(HexValue(rs))
  {
    TypeCodes();
    FieldIs(e, 0, 2, "0c");
    FieldIs(e, 4, 6, sc);
    FieldIs(e, 6, 8, po);
    FieldIs(e, 8, 10, li);
    FieldIs(e, 10, 12, ri);
    FieldIs(e, 12, 14, rs);
  }

  lemma {:induction false} StateInfoTail(e: string, termostato: Option<int>, posPunto: Option<int>,
                                         tt: string, pp: string)
    requires termostato.Some? ==> IsWord(termostato.value) && tt == "0000000000" + Hex4(termostato.value)
    requires posPunto.Some? ==> IsByte(posPunto.value) && pp == Hex2(posPunto.value)
    requires |tt| == 14 ==> Slice(e, 24, 28) == tt[10..14]
    requires |pp| == 2 ==> Slice(e, 28, 30) == pp
    ensures termostato.Some? ==> F(e, 24, 28) == Some(termostato.value)
    ensures posPunto.Some? ==> F(e, 28, 30) == Some(posPunto.value)
  {
    if termostato.Some? {
      assert tt[10..14] == Hex4(termostato.value);
      FieldIs(e, 24, 28, Hex4(termostato.value));
    }
    if posPunto.Some? {
      FieldIs(e, 28, 30, pp);
    }
  }

  /** Fields at the state_info offsets decode as the record they hold. */
  lemma {:induction false} StateInfoDecodes(e: string, statoCrono: int, potenza: char, lingua: int, ricetta: int,
                                            rs485Addr: int, termostato: Option<int>, posPunto: Option<int>)
    requires (potenza as int) < 256
    requires F(e, 4, 6) == Some(statoCrono) && ByteAt(e, 6) == Some(potenza as int)
    requires F(e, 8, 10) == Some(lingua) && F(e, 10, 12) == Some(ricetta) && F(e, 12, 14) == Some(rs485Addr)
    requires (|e| >= 28 <==> termostato.Some?) && (|e| >= 30 <==> posPunto.Some?)
    requires termostato.Some? ==> F(e, 24, 28) == Some(termostato.value)
    requires posPunto.Some? ==> F(e, 28, 30) == Some(posPunto.value)
    ensures DecodeStateInfo(e) == Some(StateInfo(statoCrono, potenza, lingua, ricetta, rs485Addr, termostato, posPunto))
  {
  }

  /**
   * A state_info record reads back as the values written into it, in each of its three
   * lengths: 14 characters, 28 with the thermostat word, 30 with the decimals byte too.
   */
  lemma {:induction false} StateInfoRoundTrip(statoCrono: int, potenza: char, lingua: int, ricetta: int,
                                              rs485Addr: int, termostato: Option<int>, posPunto: Option<int>)
    requires IsByte(statoCrono) && (potenza as int) < 256 && IsByte(lingua) && IsByte(ricetta)
    requires IsByte(rs485Addr) && (termostato.Some? ==> IsWord(termostato.value))
    requires posPunto.Some? ==> termostato.Some? && IsByte(posPunto.value)
    ensures var e := EncodeStateInfo(statoCrono, potenza, lingua, ricetta, rs485Addr, termostato, posPunto);
      ParseHexDatapoint(e) == StateInfo(statoCrono, potenza, lingua, ricetta, rs485Addr, termostato, posPunto)
      && ParseHexDatapointDist(e) == ParseHexDatapoint(e)
  {
    var e := EncodeStateInfo(statoCrono, potenza, lingua, ricetta, rs485Addr, termostato, posPunto);
    StateInfoFields(statoCrono, potenza, lingua, ricetta, rs485Addr, termostato, posPunto);
    StateInfoDecodes(e, statoCrono, potenza, lingua, ricetta, rs485Addr, termostato, posPunto);
    StateInfoParses(e, StateInfo(statoCrono, potenza, lingua, ricetta, rs485Addr, termostato, posPunto));
  }

  /** A 0x0c record of sub-type 81 takes the state_info branch in both builds. */
  lemma {:induction false} StateInfoParses(e: string, d: Datapoint)
    requires |e| >= 4 && F(e, 0, 2) == Some(0x0c) && Slice(e, 2, 4) == "81" && DecodeStateInfo(e) == Some(d)
    ensures ParseHexDatapoint(e) == d && ParseHexDatapointDist(e) == d
  {
    assert DecodeRecord(0x0c, e, false) == Some(d);
    assert DecodeRecord(0x0c, e, true) == Some(d);
  }

  /** Text written two hex digits per character after any prefix reads back from the prefix's end. */
  lemma {:induction false} TextFromHex(p: string, t: string)
    requires IsByteText(t)
    ensures TextFrom(p + TextHex(t), |p|) == Some(t)
    decreases |t|
  {
    var e := p + TextHex(t);
    if |t| > 0 {
      var c := Hex2(t[0] as int);
      var p' := p + c;
      assert e == p' + TextHex(t[1..]);
      assert Slice(e, |p|, |p| + 2) == c;
      assert ByteAt(e, |p|) == Some(t[0] as int);
      TextFromHex(p', t[1..]);
      assert [t[0]] + t[1..] == t;
    }
  }

  /** The id of a text record, written as its sub-type. */
  lemma TextSubtypeHex(id: int)
    requires id == 0 || id == 1 || id == 0x80
    ensures IsTextSubtype(Hex2(id)) && Hex2(id) != "81"
  {
    assert Hex2(0) == "00";
    assert Hex2(1) == "01";
    assert Hex2(0x80) == "80";
  }

  /** A state_text record reads back as its id and the text written into it. */
  lemma StateTextRoundTrip(id: int, text: string)
    requires (id == 0 || id == 1 || id == 0x80) && IsByteText(text)
    ensures ParseHexDatapoint(EncodeStateText(id, text)) == StateText(id, text)
    ensures ParseHexDatapointDist(EncodeStateText(id, text)) == StateText(id, text)
  {
    var e := EncodeStateText(id, text);
    var p := "0c" + Hex2(id);
    assert e == p + TextHex(text);
    assert e[0..2] == "0c" && e[2..4] == Hex2(id);
    TypeCodes();
    FieldIs(e, 0, 2, "0c");
    TextSubtypeHex(id);
    TextFromHex(p, text);
    assert DecodeStateText(e) == Some(StateText(id, text));
    ParseKnown(e, 0x0c, false);
    ParseKnown(e, 0x0c, true);
  }

  /**
   * Every record a device can send decodes back to the value it was written from by the
   * compiled build; the source build agrees except on crono_enb, which it leaves unknown.
   */
  lemma ParseEncode(d: Datapoint)
    requires Encodable(d)
    ensures ParseHexDatapointDist(Encode(d)) == d
    ensures ParseHexDatapoint(Encode(d)) == if d.CronoEnable? then Unknown(Encode(d)) else d
  {
    match d
    case MainValues(tempSec, stato, errore, tempPrinc, posPunto) =>
      MainValuesRoundTrip(tempSec, stato, errore, tempPrinc, posPunto);
    case StateInfo(statoCrono, potenza, lingua, ricetta, rs485Addr, termostato, infoPosPunto) =>
      StateInfoRoundTrip(statoCrono, potenza, lingua, ricetta, rs485Addr, termostato, infoPosPunto);
    case StateText(id, text) => StateTextRoundTrip(id, text);
    case Parameter(id, valore, min, max, readOnly, posPunto) =>
      ParameterRoundTrip(id, valore, min, max, readOnly, posPunto);
    case Sensor(id, valore, min, max, readOnly) => SensorRoundTrip(id, valore, min, max, readOnly);
    case Thermostat(id, abilitazione, status, valore, min, max, temperatura) =>
      ThermostatRoundTrip(id, abilitazione, status, valore, min, max, temperatura);
    case ThermostatV2(id, valore, min, max, temperatura, posPunto) =>
      ThermostatV2RoundTrip(id, valore, min, max, temperatura, posPunto);
    case Power(id, valore, min, max) => PowerRoundTrip(id, valore, min, max);
    case CronoEnable(id, stato, modalita) => CronoEnableRoundTrip(id, stato, modalita);
  }

  // ---------------------------------------------------------------- commands

  /**
   * The value field of a write command: `newValue`, plus 65536 when negative, as lowercase
   * hex padded to four digits.
   */
  function ValueHex(v: int): string {
    PadStart(ToHexSigned(if v < 0 then v + 65536 else v), 4, '0')
  }

  /**
   * The value field reads back as the written word: for values from -65536 on it is
   * lowercase hex of `newValue` (plus 65536 when negative), four digits up to 65535 and more
   * beyond; below -65536 it holds a minus sign. A 16-bit value comes back through signed16.
   */
  lemma ValueHexValue(v: int)
    ensures var r := ValueHex(v);
      (v >= -65536 ==> IsHexString(r) && IsLowerHex(r) && |r| >= 4
                       && HexValue(r) == if v < 0 then v + 65536 else v)
      && (-65536 <= v < 65536 ==> |r| == 4)
      && (v < -65536 ==> !IsHexString(r))
      && (IsInt16(v) ==> r == Hex4(Word16(v)) && Signed16(HexValue(r)) == v)
  {
    var n := if v < 0 then v + 65536 else v;
    var r := ValueHex(v);
    if n >= 0 {
      PadStartHex(n, 4);
      assert Pow16(4) == 65536;
      if IsInt16(v) {
        LowerHexUnique(r, Hex4(Word16(v)));
      }
    } else {
      assert r[|r| - |ToHexSigned(n)|] == '-';
    }
  }

  /** The hex payload of a parameter write: byte 05, the record's first three bytes, the value. */
  function WritePayloadHex(originalHex: string, v: int): (r: string)
    ensures |r| >= 2 && r[..2] == "05"
    ensures |originalHex| >= 6 ==> |r| >= 8 && r[2..8] == originalHex[..6]
  {
    "05" + Slice(originalHex, 0, 6) + ValueHex(v)
  }

  /** The value field of a write payload reads back, through signed16, as the value written. */
  lemma WritePayloadValue(originalHex: string, v: int)
    requires |originalHex| >= 6 && IsInt16(v)
    ensures var r := WritePayloadHex(originalHex, v);
      |r| == 12 && r[8..] == ValueHex(v) && F(r, 8, 12).Some? && Signed16(F(r, 8, 12).value) == v
  {
    ValueHexValue(v);
    var r := WritePayloadHex(originalHex, v);
    assert r == ("05" + originalHex[..6]) + ValueHex(v);
    assert r[8..] == ValueHex(v);
    assert Slice(r, 8, 12) == ValueHex(v);
  }

  /** The text every 2WC write command opens with, up to its payload. */
  const WriteHeader: string := "[\"2WC\",\"1\",\""

  /** A 2WC write frame written out: the header, the payload, then the closing quote and bracket. */
  lemma WriteFrame(p: string)
    ensures Frame(["2WC", "1", p]) == WriteHeader + p + "\"]"
  {
    Frame3("2WC", "1", p);
    assert "[\"" + "2WC" + "\",\"" + "1" + "\",\"" == WriteHeader;
  }

  /**
   * build2WCCommand as the compiled build has it: the direct command for the write payload,
   * 26 characters for a 16-bit value.
   */
  function Build2WCCommandText(originalHex: string, v: int): (r: string)
    ensures r == BuildDirectCommandText(WritePayloadHex(originalHex, v))
    ensures |originalHex| >= 6 && IsInt16(v) ==> |r| == |WriteHeader| + 12 + 2
  {
    var p := WritePayloadHex(originalHex, v);
    assert |originalHex| >= 6 && IsInt16(v) ==> |p| == 12 by {
      if |originalHex| >= 6 && IsInt16(v) {
        WritePayloadValue(originalHex, v);
      }
    }
    Frame(["2WC", "1", p])
  }

  /**
   * buildDirectCommand as the compiled build has it: the payload text between the header and
   * the closing quote (DirectCommandTextFields reads it back).
   */
  function BuildDirectCommandText(hexPayload: string): (r: string)
    ensures r == WriteHeader + hexPayload + "\"]"
  {
    WriteFrame(hexPayload);
    Frame(["2WC", "1", hexPayload])
  }

  /**
   * `Buffer.from(s, 'hex')`: bytes from pairs of hex digits, stopping at the first pair that
   * is not hex; a trailing single digit is dropped.
   */
  function HexBytes(s: string): (r: seq<nat>)
    ensures |r| <= |s| / 2
    ensures forall k :: 0 <= k < |r| ==> r[k] < 256
    ensures IsHexString(s) ==> |r| == |s| / 2
  {
    if |s| < 2 || !IsHexDigit(s[0]) || !IsHexDigit(s[1]) then []
    else [HexByte(s[0], s[1])] + HexBytes(s[2..])
  }

  /** One character per byte, as `String.fromCharCode` gives it. */
  function Latin1(bytes: seq<nat>): (r: string)
    requires forall k :: 0 <= k < |bytes| ==> bytes[k] < 256
    ensures |r| == |bytes| && forall k :: 0 <= k < |r| ==> r[k] as int == bytes[k]
  {
    if |bytes| == 0 then [] else [bytes[0] as char] + Latin1(bytes[1..])
  }

  /**
   * build2WCCommand as the TypeScript source has it: the direct command for the write
   * payload, whose six bytes make it 20 characters long.
   */
  function Build2WCCommand(originalHex: string, v: int): (r: string)
    ensures r == BuildDirectCommand(WritePayloadHex(originalHex, v))
    ensures |originalHex| >= 6 && IsHexString(originalHex[..6]) && IsInt16(v) ==> |r| == |WriteHeader| + 6 + 2
  {
    var p := WritePayloadHex(originalHex, v);
    assert |originalHex| >= 6 && IsHexString(originalHex[..6]) && IsInt16(v) ==> |HexBytes(p)| == 6 by {
      if |originalHex| >= 6 && IsHexString(originalHex[..6]) && IsInt16(v) {
        WriteCommandBytes(originalHex, v);
      }
    }
    Frame(["2WC", "1", Latin1(HexBytes(p))])
  }

  /**
   * buildDirectCommand as the TypeScript source has it: the header, one character per byte
   * of the payload, then the closing quote and bracket.
   */
  function BuildDirectCommand(hexPayload: string): (r: string)
    ensures var b := HexBytes(hexPayload);
      |r| == |WriteHeader| + |b| + 2 && r[..|WriteHeader|] == WriteHeader
      && r[|WriteHeader| + |b|..] == "\"]"
      && forall k :: 0 <= k < |b| ==> r[|WriteHeader| + k] as int == b[k]
  {
    var bs := Latin1(HexBytes(hexPayload));
    WriteFrame(bs);
    HeaderLayout(bs);
    Frame(["2WC", "1", bs])
  }

  lemma HeaderLayout(p: string)
    ensures var r := WriteHeader + p + "\"]";
      |r| == |WriteHeader| + |p| + 2 && r[..|WriteHeader|] == WriteHeader
      && r[|WriteHeader| + |p|..] == "\"]" && forall k :: 0 <= k < |p| ==> r[|WriteHeader| + k] == p[k]
  {
    var r := WriteHeader + p + "\"]";
    assert r == WriteHeader + (p + "\"]");
  }

  const OnPayload := "05040000"
  const OffPayload := "05050000"

  function BuildOnCommand(): (r: string)
    ensures r == BuildDirectCommand(OnPayload) && HexBytes(OnPayload) == [5, 4, 0, 0]
  {
    OnOffBytes();
    BuildDirectCommand(OnPayload)
  }

  function BuildOffCommand(): (r: string)
    ensures r == BuildDirectCommand(OffPayload) && HexBytes(OffPayload) == [5, 5, 0, 0]
  {
    OnOffBytes();
    BuildDirectCommand(OffPayload)
  }

  function BuildResetCommand(): (r: string)
    ensures r == Frame(["RST", "0"])
  {
    Frame2("RST", "0");
    "[\"RST\",\"0\"]"
  }

  function BuildStatusCommand(): (r: string)
    ensures r == Frame(["2WL", "0"])
  {
    Frame2("2WL", "0");
    "[\"2WL\",\"0\"]"
  }

  // ---------------------------------------------------------------- properties of the commands

  /** Bytes of hex text split at an even boundary are the bytes of each part. */
  lemma {:induction false} HexBytesConcat(a: string, b: string)
    requires |a| % 2 == 0 && IsHexString(a)
    ensures HexBytes(a + b) == HexBytes(a) + HexBytes(b)
    decreases |a|
  {
    if |a| == 0 {
      assert a + b == b;
    } else {
      assert (a + b)[2..] == a[2..] + b;
      HexBytesConcat(a[2..], b);
    }
  }

  /** Four hex digits are two bytes, most significant first. */
  lemma HexBytesWord(s: string)
    requires |s| == 4 && IsHexString(s)
    ensures var b := HexBytes(s); |b| == 2 && b[0] * 256 + b[1] == HexValue(s)
  {
    assert s[2..][2..] == [];
    assert HexBytes(s) == [HexByte(s[0], s[1]), HexByte(s[2], s[3])];
    var d0, d1, d2, d3 := HexDigitValue(s[0]), HexDigitValue(s[1]), HexDigitValue(s[2]), HexDigitValue(s[3]);
    assert s[..3][..2][..1][..0] == [];
    assert s[..3][..2][..1] == [s[0]];
    assert HexValue(s[..3][..2][..1]) == d0;
    assert s[..3][..2] == [s[0], s[1]];
    assert HexValue(s[..3][..2]) == d0 * 16 + d1;
    assert s[..3] == [s[0], s[1], s[2]];
    assert HexValue(s[..3]) == (d0 * 16 + d1) * 16 + d2;
    assert s[..4] == s;
  }

  /**
   * The source's write command carries six bytes: 05, the first three bytes of the record,
   * and the new value as a big-endian 16-bit two's-complement word.
   */
  lemma WriteCommandBytes(originalHex: string, v: int)
    requires |originalHex| >= 6 && IsHexString(originalHex[..6]) && IsInt16(v)
    ensures var b := HexBytes(WritePayloadHex(originalHex, v));
      |b| == 6 && b[0] == 5 && b[1..4] == HexBytes(originalHex[..6])
      && b[4] * 256 + b[5] == Word16(v) && Signed16(b[4] * 256 + b[5]) == v
  {
    var o, w := originalHex[..6], ValueHex(v);
    WritePayloadValue(originalHex, v);
    ValueHexValue(v);
    assert WritePayloadHex(originalHex, v) == ("05" + o) + w;
    PayloadBytes(o, w);
    HexBytesWord(w);
  }

  lemma {:induction false} PayloadBytes(o: string, w: string)
    requires |o| == 6 && IsHexString(o) && IsHexString(w)
    ensures HexBytes(("05" + o) + w) == [5] + HexBytes(o) + HexBytes(w)
  {
    assert HexBytes("05") == [5];
    HexConcat("05", o);
    HexBytesConcat("05", o);
    HexBytesConcat("05" + o, w);
  }

  /** The text write command is a 2WC frame whose fields read back unchanged. */
  lemma WriteCommandTextFields(originalHex: string, v: int)
    requires |originalHex| >= 6 && IsHexString(originalHex[..6]) && IsInt16(v)
    ensures Fields(Build2WCCommandText(originalHex, v), "2WC") == Some(["2WC", "1", WritePayloadHex(originalHex, v)])
  {
    var p := WritePayloadHex(originalHex, v);
    PayloadIsHex(originalHex, v);
    DirectCommandTextFields(p);
  }

  lemma PayloadIsHex(originalHex: string, v: int)
    requires |originalHex| >= 6 && IsHexString(originalHex[..6]) && IsInt16(v)
    ensures IsHexString(WritePayloadHex(originalHex, v))
  {
    ValueHexValue(v);
    PayloadParts(originalHex, v);
    HexConcat("05", originalHex[..6]);
    HexConcat("05" + originalHex[..6], ValueHex(v));
  }

  /** A compiled direct command carrying hex text reads back field for field. */
  lemma DirectCommandTextFields(p: string)
    requires IsHexString(p)
    ensures Fields(BuildDirectCommandText(p), "2WC") == Some(["2WC", "1", p])
  {
    QuoteFreePlain("2WC");
    QuoteFreePlain("1");
    QuoteFreePlain(p);
    FieldsOfFrame("", ["2WC", "1", p], "");
    assert "" + Frame(["2WC", "1", p]) + "" == Frame(["2WC", "1", p]);
  }

  /**
   * Writing to a decoded parameter record addresses it: the payload repeats the record's type
   * byte and id, and its value field reads back as the new value.
   */
  lemma WriteTargetsParameter(h: string, v: int)
    requires ParseHexDatapoint(h).Parameter? && IsInt16(v)
    ensures var p := WritePayloadHex(h, v);
      F(p, 2, 4) == Some(0x0e) && F(p, 4, 8) == Some(ParseHexDatapoint(h).id)
      && F(p, 8, 12).Some? && Signed16(F(p, 8, 12).value) == v
  {
    var d := ParseHexDatapoint(h);
    ParameterLayout(h);
    assert |Slice(h, 6, 10)| > 0;
    WritePayloadValue(h, v);
    var p := WritePayloadHex(h, v);
    SameSlices(p, h);
  }

  /** A payload repeats the first six characters of the record it was built from. */
  lemma {:induction false} SameSlices(p: string, h: string)
    requires |p| >= 8 && |h| >= 6 && p[2..8] == h[..6]
    ensures Slice(p, 2, 4) == Slice(h, 0, 2) && Slice(p, 4, 8) == Slice(h, 2, 6)
  {
    assert p[2..4] == p[2..8][..2];
    assert p[4..8] == p[2..8][2..];
  }

  /** The on and off payloads, as bytes. */
  lemma OnOffBytes()
    ensures HexBytes(OnPayload) == [5, 4, 0, 0] && HexBytes(OffPayload) == [5, 5, 0, 0]
  {
    assert HexByte('0', '5') == 5 && HexByte('0', '4') == 4 && HexByte('0', '0') == 0;
    assert OnPayload == ['0', '5', '0', '4', '0', '0', '0', '0'];
    HexBytesOfFour('0', '5', '0', '4', '0', '0', '0', '0');
    assert OffPayload == ['0', '5', '0', '5', '0', '0', '0', '0'];
    HexBytesOfFour('0', '5', '0', '5', '0', '0', '0', '0');
  }

  /** Four pairs of hex digits give four bytes. */
  lemma HexBytesOfFour(a: char, b: char, c: char, d: char, e: char, f: char, g: char, h: char)
    requires IsHexDigit(a) && IsHexDigit(b) && IsHexDigit(c) && IsHexDigit(d)
    requires IsHexDigit(e) && IsHexDigit(f) && IsHexDigit(g) && IsHexDigit(h)
    ensures HexBytes([a, b, c, d, e, f, g, h])
         == [HexByte(a, b), HexByte(c, d), HexByte(e, f), HexByte(g, h)]
  {
    var s := [a, b, c, d, e, f, g, h];
    assert s[2..] == [c, d, e, f, g, h];
    assert HexBytes([g, h]) == [HexByte(g, h)] by {
      assert [g, h][2..] == [];
    }
    assert HexBytes([e, f, g, h]) == [HexByte(e, f)] + HexBytes([g, h]) by {
      assert [e, f, g, h][2..] == [g, h];
    }
    assert HexBytes([c, d, e, f, g, h]) == [HexByte(c, d)] + HexBytes([e, f, g, h]) by {
      assert [c, d, e, f, g, h][2..] == [e, f, g, h];
    }
  }

  /**
   * The write payloads of the test suite: 50, -5 and 1 written to the record
   * 0E00C7002D001E004B0000. The frames around them are in CommandTextExamples.
   */
  lemma WriteExamples()
    ensures WritePayloadHex("0E00C7002D001E004B0000", 50) == "050E00C70032"
    ensures WritePayloadHex("0E00C7002D001E004B0000", -5) == "050E00C7fffb"
    ensures WritePayloadHex("0E00C7002D001E004B0000", 1) == "050E00C70001"
  {
    WriteFiftyExample();
    WriteMinusFiveExample();
    WriteOneExample();
  }

  lemma WriteFiftyExample()
    ensures WritePayloadHex("0E00C7002D001E004B0000", 50) == "050E00C70032"
  {
    assert WritePayloadHex("0E00C7002D001E004B0000", 50) == "05" + "0E00C7" + ValueHex(50) by {
      assert "0E00C7002D001E004B0000" == "0E00C7" + "002D001E004B0000";
      PayloadOf("0E00C7", "002D001E004B0000", 50);
    }
    ValueHexFifty();
  }

  lemma WriteMinusFiveExample()
    ensures WritePayloadHex("0E00C7002D001E004B0000", -5) == "050E00C7fffb"
  {
    assert WritePayloadHex("0E00C7002D001E004B0000", -5) == "05" + "0E00C7" + ValueHex(-5) by {
      assert "0E00C7002D001E004B0000" == "0E00C7" + "002D001E004B0000";
      PayloadOf("0E00C7", "002D001E004B0000", -5);
    }
    ValueHexMinusFive();
  }

  lemma WriteOneExample()
    ensures WritePayloadHex("0E00C7002D001E004B0000", 1) == "050E00C70001"
  {
    assert WritePayloadHex("0E00C7002D001E004B0000", 1) == "05" + "0E00C7" + ValueHex(1) by {
      assert "0E00C7002D001E004B0000" == "0E00C7" + "002D001E004B0000";
      PayloadOf("0E00C7", "002D001E004B0000", 1);
    }
    ValueHexOne();
  }

  /** A write payload is `05`, the first three bytes of the record and the value field. */
  lemma PayloadParts(originalHex: string, v: int)
    requires |originalHex| >= 6
    ensures WritePayloadHex(originalHex, v) == "05" + originalHex[..6] + ValueHex(v)
  {
  }

  lemma PayloadOf(head: string, rest: string, v: int)
    requires |head| == 6
    ensures WritePayloadHex(head + rest, v) == "05" + head + ValueHex(v)
  {
    assert (head + rest)[..6] == head;
  }

  lemma ValueHexOne()
    ensures ValueHex(1) == "0001"
  {
    assert ToHex(1) == "1";
  }

  lemma ValueHexFifty()
    ensures ValueHex(50) == "0032"
  {
    assert ToHex(3) == "3" && ToHex(50) == ToHex(3) + "2";
  }

  lemma ValueHexMinusFive()
    ensures ValueHex(-5) == "fffb"
  {
    var f, b := LowerHexDigit(15), LowerHexDigit(11);
    assert f == 'f' && b == 'b';
    assert ToHex(15) == [f];
    assert ToHex(255) == ToHex(15) + [f];
    assert ToHex(4095) == ToHex(255) + [f];
    assert ToHex(65531) == ToHex(4095) + [b];
  }

  /** Zero written to the record 0E0180000100000001. */
  lemma WriteZeroExample()
    ensures WritePayloadHex("0E0180000100000001", 0) == "050E01800000"
  {
    assert "0E0180000100000001" == "0E0180" + "000100000001";
    assert ValueHex(0) == "0000";
    PayloadOf("0E0180", "000100000001", 0);
  }

  /**
   * The whole commands the test suite expects, as the compiled build writes them: the on and
   * off commands and a direct command; the parameter writes follow.
   */
  lemma DirectTextExamples()
    ensures BuildDirectCommandText(OnPayload) == "[\"2WC\",\"1\",\"" + "05040000" + "\"]"
    ensures BuildDirectCommandText(OffPayload) == "[\"2WC\",\"1\",\"" + "05050000" + "\"]"
    ensures BuildDirectCommandText("AABBCCDD") == "[\"2WC\",\"1\",\"" + "AABBCCDD" + "\"]"
  {
  }

  lemma WriteFiftyCommand()
    ensures Build2WCCommandText("0E00C7002D001E004B0000", 50) == "[\"2WC\",\"1\",\"" + "050E00C70032" + "\"]"
  {
    WriteFiftyExample();
    WriteTextFrameOf("0E00C7002D001E004B0000", 50, "050E00C70032");
  }

  lemma WriteMinusFiveCommand()
    ensures Build2WCCommandText("0E00C7002D001E004B0000", -5) == "[\"2WC\",\"1\",\"" + "050E00C7fffb" + "\"]"
  {
    WriteMinusFiveExample();
    WriteTextFrameOf("0E00C7002D001E004B0000", -5, "050E00C7fffb");
  }

  lemma WriteOneCommand()
    ensures Build2WCCommandText("0E00C7002D001E004B0000", 1) == "[\"2WC\",\"1\",\"" + "050E00C70001" + "\"]"
  {
    WriteOneExample();
    WriteTextFrameOf("0E00C7002D001E004B0000", 1, "050E00C70001");
  }

  lemma WriteZeroCommand()
    ensures Build2WCCommandText("0E0180000100000001", 0) == "[\"2WC\",\"1\",\"" + "050E01800000" + "\"]"
  {
    WriteZeroExample();
    WriteTextFrameOf("0E0180000100000001", 0, "050E01800000");
  }

  lemma WriteTextFrameOf(originalHex: string, v: int, q: string)
    requires WritePayloadHex(originalHex, v) == q
    ensures Build2WCCommandText(originalHex, v) == "[\"2WC\",\"1\",\"" + q + "\"]"
  {
  }
}
