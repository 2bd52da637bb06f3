/**
 * The status snapshot `readStatus` assembles from a `2WL` reply: the records are decoded one
 * after the other and each kind of record updates its own part of the snapshot.
 */
module Status {
  import opened Wrappers
  import opened JsText
  import opened Protocol

  datatype ParameterValue = ParameterValue(
    id: int, valore: int, min: int, max: int, readOnly: bool, posPunto: int, originalHex: string,
    value: real, minValue: real, maxValue: real)

  datatype SensorValue = SensorValue(id: int, valore: int, min: int, max: int)

  /** The snapshot; its `lastUpdate` clock reading is not part of the model. */
  datatype DeviceState = DeviceState(
    stato: int, errore: int, tempPrinc: real, tempSec: real, posPunto: int, statoCrono: int,
    parameters: map<int, ParameterValue>, sensors: map<int, SensorValue>)

  /** The `statoCrono` a snapshot starts from before any state_info record. */
  const InitialStatoCrono: int := 0x23

  /** The snapshot before any record: all zero, `statoCrono` 0x23, nothing stored. */
  function InitialState(): (s: DeviceState)
    ensures s.stato == 0 && s.errore == 0 && s.posPunto == 0 && s.tempPrinc == 0.0 && s.tempSec == 0.0
    ensures s.statoCrono == 0x23
    ensures |s.parameters| == 0 && |s.sensors| == 0
  {
    DeviceState(0, 0, 0.0, 0.0, 0, InitialStatoCrono, map[], map[])
  }

  // ---------------------------------------------------------------- which records update what

  /** A record of the reply together with what parseHexDatapoint made of it. */
  datatype Record = Record(hex: string, parsed: Datapoint)

  /** The loop's view of the reply: each record with its decoding. */
  function Decoded(hs: seq<string>): (r: seq<Record>)
    ensures |r| == |hs|
    ensures forall k :: 0 <= k < |hs| ==> r[k] == Record(hs[k], ParseHexDatapoint(hs[k]))
  {
    seq(|hs|, k requires 0 <= k < |hs| => Record(hs[k], ParseHexDatapoint(hs[k])))
  }

  /** A writable parameter record: the only kind of parameter record that is stored. */
  predicate IsWritableParam(r: Record) {
    r.parsed.Parameter? && !r.parsed.readOnly
  }

  predicate IsSensor(r: Record) {
    r.parsed.Sensor?
  }

  /** A record that is stored under `id` in the parameters. */
  predicate StoredParam(r: Record, id: int) {
    IsWritableParam(r) && r.parsed.id == id
  }

  predicate StoredSensor(r: Record, id: int) {
    IsSensor(r) && r.parsed.id == id
  }

  predicate IsMain(r: Record) {
    r.parsed.MainValues?
  }

  predicate IsStateInfo(r: Record) {
    r.parsed.StateInfo?
  }

  /** The stored form of a parameter record: the record itself and its scaled values. */
  function ParamValueOf(r: Record): (p: ParameterValue)
    requires r.parsed.Parameter?
    ensures p.originalHex == r.hex && p.id == r.parsed.id && p.readOnly == r.parsed.readOnly
    ensures p.valore == r.parsed.valore && p.posPunto == r.parsed.posPunto
    ensures p.min == r.parsed.min && p.max == r.parsed.max
    ensures p.value == ApplyPosPunto(p.valore, p.posPunto)
    ensures p.minValue == ApplyPosPunto(p.min, p.posPunto) && p.maxValue == ApplyPosPunto(p.max, p.posPunto)
  {
    var d := r.parsed;
    ParameterValue(d.id, d.valore, d.min, d.max, d.readOnly, d.posPunto, r.hex,
      ApplyPosPunto(d.valore, d.posPunto), ApplyPosPunto(d.min, d.posPunto), ApplyPosPunto(d.max, d.posPunto))
  }

  /** The stored form of a sensor record: its raw reading and bounds, unscaled. */
  function SensorValueOf(r: Record): (v: SensorValue)
    requires r.parsed.Sensor?
    ensures v.id == r.parsed.id && v.valore == r.parsed.valore
    ensures v.min == r.parsed.min && v.max == r.parsed.max
  {
    var d := r.parsed;
    SensorValue(d.id, d.valore, d.min, d.max)
  }

  /** The main-values part of a snapshot. */
  function MainPart(s: DeviceState): (int, int, int, real, real) {
    (s.stato, s.errore, s.posPunto, s.tempPrinc, s.tempSec)
  }

  /** The main-values part a main_values record sets: temperatures scaled by the record's posPunto. */
  function MainPartOf(r: Record): (int, int, int, real, real)
    requires IsMain(r)
  {
    var d := r.parsed;
    (d.stato, d.errore, d.posPunto, ApplyPosPunto(d.tempPrinc, d.posPunto), ApplyPosPunto(d.tempSec, d.posPunto))
  }

  /** One pass of the loop body of readStatus: each kind of record updates only its own part. */
  function Step(s: DeviceState, r: Record): (t: DeviceState)
    ensures IsMain(r) ==> MainPart(t) == MainPartOf(r)
    ensures !IsMain(r) ==> MainPart(t) == MainPart(s)
    ensures IsStateInfo(r) ==> t.statoCrono == r.parsed.statoCrono
    ensures !IsStateInfo(r) ==> t.statoCrono == s.statoCrono
    ensures IsWritableParam(r) ==> t.parameters == s.parameters[r.parsed.id := ParamValueOf(r)]
    ensures !IsWritableParam(r) ==> t.parameters == s.parameters
    ensures IsSensor(r) ==> t.sensors == s.sensors[r.parsed.id := SensorValueOf(r)]
    ensures !IsSensor(r) ==> t.sensors == s.sensors
    ensures !IsMain(r) && !IsStateInfo(r) && !IsWritableParam(r) && !IsSensor(r) ==> t == s
  {
    var parsed := r.parsed;
    if parsed.MainValues? then
      s.(stato := parsed.stato, errore := parsed.errore, posPunto := parsed.posPunto,
         tempPrinc := ApplyPosPunto(parsed.tempPrinc, parsed.posPunto),
         tempSec := ApplyPosPunto(parsed.tempSec, parsed.posPunto))
    else if parsed.Parameter? && !parsed.readOnly then
      s.(parameters := s.parameters[parsed.id := ParamValueOf(r)])
    else if parsed.Sensor? then
      s.(sensors := s.sensors[parsed.id := SensorValueOf(r)])
    else if parsed.StateInfo? then
      s.(statoCrono := parsed.statoCrono)
    else
      s
  }

  /** The snapshot after the loop has gone over `rs`. */
  function Fold(s: DeviceState, rs: seq<Record>): DeviceState
    decreases |rs|
  {
    if |rs| == 0 then s else Step(Fold(s, rs[..|rs| - 1]), rs[|rs| - 1])
  }

  /** Going over one more record is one more Step. */
  lemma FoldNext(s: DeviceState, rs: seq<Record>, i: nat)
    requires i < |rs|
    ensures Fold(s, rs[..i + 1]) == Step(Fold(s, rs[..i]), rs[i])
  {
    assert rs[..i + 1][..i] == rs[..i];
  }

  /** readStatus on the reply the queue delivered: null for no reply or a reply not tagged `2WL`. */
  function StatusOf(raw: Option<string>): (r: Option<DeviceState>)
    ensures r.Some? <==> raw.Some? && raw.value != "" && Parse2WLResponse(raw.value).Some?
  {
    if raw.None? || raw.value == "" then None
    else match Parse2WLResponse(raw.value)
      case None => None
      case Some(hexValues) => Some(Fold(InitialState(), Decoded(hexValues)))
  }

  /** readStatus: the loop over the records of the reply. */
  method ReadStatus(raw: Option<string>) returns (r: Option<DeviceState>)
    ensures r == StatusOf(raw)
  {
    if raw.None? || raw.value == "" {
      return None;
    }
    var hexValues := Parse2WLResponse(raw.value);
    if hexValues.None? {
      return None;
    }
    var hs := hexValues.value;
    ghost var rs := Decoded(hs);
    var state := InitialState();
    var i := 0;
    while i < |hs|
      invariant 0 <= i <= |hs|
      invariant state == Fold(InitialState(), rs[..i])
    {
      var h := hs[i];
      var parsed := ParseHexDatapoint(h);
      assert rs[i] == Record(h, parsed);
      ghost var before := state;
      if parsed.MainValues? {
        state := state.(stato := parsed.stato, errore := parsed.errore, posPunto := parsed.posPunto,
                        tempPrinc := ApplyPosPunto(parsed.tempPrinc, parsed.posPunto),
                        tempSec := ApplyPosPunto(parsed.tempSec, parsed.posPunto));
      } else if parsed.Parameter? && !parsed.readOnly {
        var pp := parsed.posPunto;
        var param := ParameterValue(parsed.id, parsed.valore, parsed.min, parsed.max, parsed.readOnly, pp, h,
                                    ApplyPosPunto(parsed.valore, pp), ApplyPosPunto(parsed.min, pp),
                                    ApplyPosPunto(parsed.max, pp));
        state := state.(parameters := state.parameters[parsed.id := param]);
      } else if parsed.Sensor? {
        var sensor := SensorValue(parsed.id, parsed.valore, parsed.min, parsed.max);
        state := state.(sensors := state.sensors[parsed.id := sensor]);
      } else if parsed.StateInfo? {
        state := state.(statoCrono := parsed.statoCrono);
      }
      assert state == Step(before, rs[i]);
      FoldNext(InitialState(), rs, i);
      i := i + 1;
    }
    assert rs[..i] == rs;
    r := Some(state);
  }

  // ---------------------------------------------------------------- the last record wins

  /** The last writable parameter record for `id` is the one stored under `id`. */
  lemma {:induction false} LastParameterWins(s: DeviceState, rs: seq<Record>, id: int, j: nat)
    requires j < |rs| && StoredParam(rs[j], id)
    requires forall k :: j < k < |rs| ==> !StoredParam(rs[k], id)
    ensures id in Fold(s, rs).parameters && Fold(s, rs).parameters[id] == ParamValueOf(rs[j])
    decreases |rs|
  {
    var n := |rs| - 1;
    var prev := Fold(s, rs[..n]);
    assert Fold(s, rs) == Step(prev, rs[n]);
    if j < n {
      forall k | j < k < n
        ensures !StoredParam(rs[..n][k], id)
      {
        assert rs[..n][k] == rs[k];
      }
      assert rs[..n][j] == rs[j];
      LastParameterWins(s, rs[..n], id, j);
      assert !StoredParam(rs[n], id);
    }
  }

  /** Without a writable parameter record for `id`, the entry for `id` is what it was. */
  lemma {:induction false} NoParameterRecord(s: DeviceState, rs: seq<Record>, id: int)
    requires forall k :: 0 <= k < |rs| ==> !StoredParam(rs[k], id)
    ensures id in Fold(s, rs).parameters <==> id in s.parameters
    ensures id in s.parameters ==> Fold(s, rs).parameters[id] == s.parameters[id]
    decreases |rs|
  {
    if |rs| > 0 {
      var n := |rs| - 1;
      NoParameterRecord(s, rs[..n], id);
      assert !StoredParam(rs[n], id);
    }
  }

  /** The last sensor record for `id` is the one stored under `id`. */
  lemma {:induction false} LastSensorWins(s: DeviceState, rs: seq<Record>, id: int, j: nat)
    requires j < |rs| && StoredSensor(rs[j], id)
    requires forall k :: j < k < |rs| ==> !StoredSensor(rs[k], id)
    ensures id in Fold(s, rs).sensors && Fold(s, rs).sensors[id] == SensorValueOf(rs[j])
    decreases |rs|
  {
    var n := |rs| - 1;
    var prev := Fold(s, rs[..n]);
    assert Fold(s, rs) == Step(prev, rs[n]);
    if j < n {
      forall k | j < k < n
        ensures !StoredSensor(rs[..n][k], id)
      {
        assert rs[..n][k] == rs[k];
      }
      assert rs[..n][j] == rs[j];
      LastSensorWins(s, rs[..n], id, j);
      assert !StoredSensor(rs[n], id);
    }
  }

  /** Without a sensor record for `id`, the entry for `id` is what it was. */
  lemma {:induction false} NoSensorRecord(s: DeviceState, rs: seq<Record>, id: int)
    requires forall k :: 0 <= k < |rs| ==> !StoredSensor(rs[k], id)
    ensures id in Fold(s, rs).sensors <==> id in s.sensors
    ensures id in s.sensors ==> Fold(s, rs).sensors[id] == s.sensors[id]
    decreases |rs|
  {
    if |rs| > 0 {
      var n := |rs| - 1;
      NoSensorRecord(s, rs[..n], id);
      assert !StoredSensor(rs[n], id);
    }
  }

  /** The last main_values record sets state, error, decimals and both temperatures. */
  lemma {:induction false} LastMainWins(s: DeviceState, rs: seq<Record>, j: nat)
    requires j < |rs| && IsMain(rs[j])
    requires forall k :: j < k < |rs| ==> !IsMain(rs[k])
    ensures MainPart(Fold(s, rs)) == MainPartOf(rs[j])
    decreases |rs|
  {
    var n := |rs| - 1;
    if j < n {
      assert rs[..n][j] == rs[j];
      LastMainWins(s, rs[..n], j);
    }
  }

  /** Without a main_values record, the snapshot keeps its starting state and temperatures. */
  lemma {:induction false} NoMainRecord(s: DeviceState, rs: seq<Record>)
    requires forall k :: 0 <= k < |rs| ==> !IsMain(rs[k])
    ensures MainPart(Fold(s, rs)) == MainPart(s)
    decreases |rs|
  {
    if |rs| > 0 {
      NoMainRecord(s, rs[..|rs| - 1]);
    }
  }

  /** The last state_info record sets statoCrono. */
  lemma {:induction false} LastStateInfoWins(s: DeviceState, rs: seq<Record>, j: nat)
    requires j < |rs| && IsStateInfo(rs[j])
    requires forall k :: j < k < |rs| ==> !IsStateInfo(rs[k])
    ensures Fold(s, rs).statoCrono == rs[j].parsed.statoCrono
    decreases |rs|
  {
    var n := |rs| - 1;
    if j < n {
      assert rs[..n][j] == rs[j];
      LastStateInfoWins(s, rs[..n], j);
    }
  }

  /** Without a state_info record, statoCrono keeps its starting value. */
  lemma {:induction false} NoStateInfoRecord(s: DeviceState, rs: seq<Record>)
    requires forall k :: 0 <= k < |rs| ==> !IsStateInfo(rs[k])
    ensures Fold(s, rs).statoCrono == s.statoCrono
    decreases |rs|
  {
    if |rs| > 0 {
      NoStateInfoRecord(s, rs[..|rs| - 1]);
    }
  }

  // ---------------------------------------------------------------- what a snapshot holds

  /** A record paired with its own decoding, as the loop pairs them. */
  predicate WellDecoded(r: Record) {
    r.parsed == ParseHexDatapoint(r.hex)
  }

  /**
   * A parameter stored under `id`: it has that id, is writable, decodes from its original hex
   * as the values it holds, and carries its value and bounds scaled by its decimals.
   */
  predicate StoredFrom(p: ParameterValue, id: int) {
    var d := ParseHexDatapoint(p.originalHex);
    p.id == id && !p.readOnly && d.Parameter?
    && d.valore == p.valore && d.min == p.min && d.max == p.max && d.posPunto == p.posPunto
    && p.value == ApplyPosPunto(p.valore, p.posPunto)
    && p.minValue == ApplyPosPunto(p.min, p.posPunto) && p.maxValue == ApplyPosPunto(p.max, p.posPunto)
  }

  /** Every stored parameter is stored well under its key. */
  predicate StoredWell(s: DeviceState) {
    forall id :: id in s.parameters ==> StoredFrom(s.parameters[id], id)
  }

  lemma {:induction false} FoldStoredWell(s: DeviceState, rs: seq<Record>)
    requires StoredWell(s)
    requires forall k :: 0 <= k < |rs| ==> WellDecoded(rs[k])
    ensures StoredWell(Fold(s, rs))
    decreases |rs|
  {
    if |rs| > 0 {
      var n := |rs| - 1;
      WellDecodedPrefix(rs, n);
      FoldStoredWell(s, rs[..n]);
      StepStoredWell(Fold(s, rs[..n]), rs[n]);
    }
  }

  lemma WellDecodedPrefix(rs: seq<Record>, n: nat)
    requires n <= |rs| && forall k :: 0 <= k < |rs| ==> WellDecoded(rs[k])
    ensures forall k :: 0 <= k < n ==> WellDecoded(rs[..n][k])
  {
    forall k | 0 <= k < n
      ensures WellDecoded(rs[..n][k])
    {
      assert rs[..n][k] == rs[k];
    }
  }

  /** One pass of the loop keeps the stored parameters well formed. */
  lemma StepStoredWell(s: DeviceState, r: Record)
    requires StoredWell(s) && WellDecoded(r)
    ensures StoredWell(Step(s, r))
  {
    var t := Step(s, r);
    if IsWritableParam(r) {
      forall id | id in t.parameters
        ensures StoredFrom(t.parameters[id], id)
      {
        if id == r.parsed.id {
          assert t.parameters[id] == ParamValueOf(r);
        } else {
          assert t.parameters[id] == s.parameters[id];
        }
      }
    }
  }

  /** A snapshot never holds a read-only parameter: each entry came from a writable record with that id. */
  lemma NoReadOnlyParameters(raw: Option<string>, id: int)
    requires StatusOf(raw).Some? && id in StatusOf(raw).value.parameters
    ensures var p := StatusOf(raw).value.parameters[id];
      !p.readOnly && p.id == id && ParseHexDatapoint(p.originalHex).Parameter?
      && p.value == ApplyPosPunto(ParseHexDatapoint(p.originalHex).valore, p.posPunto)
  {
    var rs := Decoded(Parse2WLResponse(raw.value).value);
    forall k | 0 <= k < |rs|
      ensures WellDecoded(rs[k])
    {
    }
    FoldStoredWell(InitialState(), rs);
  }
}
