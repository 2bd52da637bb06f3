/**
 * UDP discovery and wake-up: the `CF4` reply parser and the bounded retry loop around
 * discovery attempts. Each attempt (a broadcast of `["CF4","0"]` and a wait for a reply) is
 * an oracle: attempt `k` answers with a device or with nothing.
 */
module Discovery {
  import opened Wrappers
  import opened JsText

  datatype DiscoveredDevice = DiscoveredDevice(id: string, name: string, ip: string)

  /** Default number of discovery attempts. */
  const UdpMaxRetries: int := 3
  /** A reply needs the tag, a count, then id, name and ip. */
  const MinCF4Parts: nat := 5

  /** The discovery request that wakes the device. */
  function DiscoveryRequest(): (r: string)
    ensures r == Frame(["CF4", "0"])
  {
    Frame2("CF4", "0");
    "[\"CF4\",\"0\"]"
  }

  /**
   * parseCF4Response: null unless the trimmed reply starts with `["CF4"` and has at least five
   * fields; otherwise the device named by fields 2, 3 and 4.
   */
  function ParseCF4Response(data: string): (r: Option<DiscoveredDevice>)
    ensures r.None? <==> !StartsWith(Trim(data), "[\"CF4\"") || |Fields(data, "CF4").value| < MinCF4Parts
    ensures r.Some? ==> var parts := Fields(data, "CF4").value;
      r.value.id == parts[2] && r.value.name == parts[3] && r.value.ip == parts[4]
  {
    assert "[\"" + "CF4" + "\"" == "[\"CF4\"";
    match Fields(data, "CF4")
    case None => None
    case Some(parts) =>
      if |parts| < MinCF4Parts then None else Some(DiscoveredDevice(parts[2], parts[3], parts[4]))
  }

  /** Any reply whose trimmed text does not open with `["CF4"` is rejected, the empty one included. */
  lemma RejectsOtherReplies(data: string)
    requires !StartsWith(Trim(data), "[\"CF4\"")
    ensures ParseCF4Response(data) == None
  {
  }

  lemma RejectsEmpty()
    ensures ParseCF4Response("") == None
  {
    assert !StartsWith(Trim(""), "[\"CF4\"");
  }

  /**
   * A reply written as a frame of plain fields, with any whitespace around it, gives back the
   * device it names; any number of fields after the ip (such as a trailing `OK`) is accepted.
   */
  lemma CF4RoundTrip(ws1: string, count: string, device: DiscoveredDevice, rest: seq<string>, ws2: string)
    requires AllWhitespace(ws1) && AllWhitespace(ws2)
    requires Plain(count) && Plain(device.id) && Plain(device.name) && Plain(device.ip)
    requires forall i :: 0 <= i < |rest| ==> Plain(rest[i])
    ensures ParseCF4Response(ws1 + Frame(["CF4", count, device.id, device.name, device.ip] + rest) + ws2)
         == Some(device)
  {
    var fs := ["CF4", count, device.id, device.name, device.ip] + rest;
    var data := ws1 + Frame(fs) + ws2;
    assert Fields(data, "CF4") == Some(fs) by {
      QuoteFreePlain("CF4");
      assert forall i :: 0 <= i < |fs| ==> Plain(fs[i]) by {
        forall i | 0 <= i < |fs|
          ensures Plain(fs[i])
        {
          if i >= 5 {
            assert fs[i] == rest[i - 5];
          }
        }
      }
      FieldsOfFrame(ws1, fs, ws2);
    }
    DeviceOfFields(data, fs);
  }

  /** A reply whose envelope holds at least five fields names the device in fields 2, 3 and 4. */
  lemma DeviceOfFields(data: string, parts: seq<string>)
    requires Fields(data, "CF4") == Some(parts) && |parts| >= MinCF4Parts
    ensures ParseCF4Response(data) == Some(DiscoveredDevice(parts[2], parts[3], parts[4]))
  {
  }

  /** A reply of only four plain fields is too short. */
  lemma RejectsFourFields(count: string, id: string, name: string)
    requires Plain(count) && Plain(id) && Plain(name)
    ensures ParseCF4Response(Frame(["CF4", count, id, name])) == None
  {
    var fs := ["CF4", count, id, name];
    QuoteFreePlain("CF4");
    assert Frame(fs) == "" + Frame(fs) + "";
    FieldsOfFrame("", fs, "");
  }

  /** The number of passes of `for (let i = 0; i < maxRetries; i++)`. */
  function Attempts(maxRetries: int): nat {
    if maxRetries < 0 then 0 else maxRetries
  }

  /** The first device found by attempts `from`, `from + 1`, ..., `n - 1`, if any. */
  function FirstFound(attempt: nat -> Option<DiscoveredDevice>, from: nat, n: nat): Option<DiscoveredDevice>
    decreases n - from
  {
    if from >= n then None
    else if attempt(from).Some? then attempt(from)
    else FirstFound(attempt, from + 1, n)
  }

  /** What a discovery of up to `maxRetries` attempts yields. */
  function Discover(maxRetries: int, attempt: nat -> Option<DiscoveredDevice>): Option<DiscoveredDevice> {
    FirstFound(attempt, 0, Attempts(maxRetries))
  }

  /** An attempt that finds a device after every earlier one failed decides the discovery. */
  lemma {:induction false} FirstFoundAt(attempt: nat -> Option<DiscoveredDevice>, from: nat, n: nat, k: nat)
    requires from <= k < n && attempt(k).Some?
    requires forall j :: from <= j < k ==> attempt(j).None?
    ensures FirstFound(attempt, from, n) == attempt(k)
    decreases k - from
  {
    if from < k {
      FirstFoundAt(attempt, from + 1, n, k);
    }
  }

  /** Discovery finds nothing iff every attempt fails. */
  lemma {:induction false} FirstFoundNone(attempt: nat -> Option<DiscoveredDevice>, from: nat, n: nat)
    ensures FirstFound(attempt, from, n).None? <==> forall j :: from <= j < n ==> attempt(j).None?
    decreases n - from
  {
    if from < n {
      FirstFoundNone(attempt, from + 1, n);
    }
  }

  /**
   * wakeAndDiscover: up to `maxRetries` attempts, returning the first device found. `tries` is
   * the number of attempts made.
   */
  method WakeAndDiscover(maxRetries: int, attempt: nat -> Option<DiscoveredDevice>)
    returns (r: Option<DiscoveredDevice>, tries: nat)
    ensures r == Discover(maxRetries, attempt)
    ensures tries <= Attempts(maxRetries)
    ensures r.Some? ==> tries >= 1 && r == attempt(tries - 1)
    ensures forall k :: 0 <= k < tries - 1 ==> attempt(k).None?
    ensures r.None? <==> forall k :: 0 <= k < maxRetries ==> attempt(k).None?
    ensures r.None? ==> tries == Attempts(maxRetries)
  {
    var i := 0;
    tries := 0;
    while i < maxRetries
      invariant 0 <= i <= Attempts(maxRetries) && tries == i
      invariant forall k :: 0 <= k < i ==> attempt(k).None?
      invariant FirstFound(attempt, i, Attempts(maxRetries)) == Discover(maxRetries, attempt)
      decreases maxRetries - i
    {
      var device := attempt(i);
      tries := i + 1;
      if device.Some? {
        return device, tries;
      }
      i := i + 1;
    }
    r := None;
  }
}
