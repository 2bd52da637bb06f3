/**
 * The TCP client: a single-flight FIFO queue of commands, the host it talks to (configured
 * or found by discovery and then kept), the `finish` guard of one TCP exchange, and the
 * results its public operations make of a reply.
 *
 * Sockets, timers and promises are not modelled: one TCP exchange is the sequence of socket
 * events it sees, and a discovery attempt is an oracle.
 */
module Client {
  import opened Wrappers
  import opened JsText
  import opened Protocol
  import opened Status
  import Crono
  import Discovery

  // ---------------------------------------------------------------- one TCP exchange

  /**
   * What the socket reports. `Connected` is the connect callback's delayed write firing;
   * `Data` a received chunk; the other four end the exchange.
   */
  datatype SocketEvent = Connected | Data(chunk: string) | End | Close | Timeout | Error

  predicate Terminal(e: SocketEvent) {
    e.End? || e.Close? || e.Timeout? || e.Error?
  }

  /** The value `finish` is called with: `data || null` on end and close, null on timeout and error. */
  function FinishValue(e: SocketEvent, data: string): (r: Option<string>)
    requires Terminal(e)
    ensures r.Some? <==> (e.End? || e.Close?) && data != ""
    ensures r.Some? ==> r.value == data
  {
    if (e.End? || e.Close?) && data != "" then Some(data) else None
  }

  /** All chunks received, in order. */
  function Received(events: seq<SocketEvent>): string {
    if |events| == 0 then ""
    else Received(events[..|events| - 1]) + (if events[|events| - 1].Data? then events[|events| - 1].chunk else "")
  }

  /** Whether no event among the first `n` ends the exchange. */
  predicate OpenFor(events: seq<SocketEvent>, n: nat)
    requires n <= |events|
  {
    forall k :: 0 <= k < n ==> !Terminal(events[k])
  }

  /** What the exchange resolves with, scanning from event `i`: the first terminal event's value, or null. */
  function ExchangeFrom(events: seq<SocketEvent>, i: nat): Option<string>
    requires i <= |events|
    decreases |events| - i
  {
    if i == |events| then None
    else if Terminal(events[i]) then FinishValue(events[i], Received(events[..i]))
    else ExchangeFrom(events, i + 1)
  }

  /** What a whole exchange resolves with. */
  function Exchange(events: seq<SocketEvent>): Option<string> {
    ExchangeFrom(events, 0)
  }

  /** Whether the command is written: the connection comes up before anything ends the exchange. */
  predicate Writes(events: seq<SocketEvent>) {
    exists i :: 0 <= i < |events| && events[i].Connected? && OpenFor(events, i)
  }

  /** The first terminal event decides the exchange, with the data received before it. */
  lemma {:induction false} ExchangeFirstTerminal(events: seq<SocketEvent>, i: nat)
    requires i < |events| && Terminal(events[i]) && OpenFor(events, i)
    ensures Exchange(events) == FinishValue(events[i], Received(events[..i]))
  {
    var j := i;
    while j > 0
      invariant 0 <= j <= i && ExchangeFrom(events, j) == FinishValue(events[i], Received(events[..i]))
    {
      assert !Terminal(events[j - 1]);
      j := j - 1;
    }
  }

  /** An exchange that no event ends resolves with null. */
  lemma {:induction false} ExchangeOpen(events: seq<SocketEvent>)
    requires OpenFor(events, |events|)
    ensures Exchange(events).None?
  {
    var j := |events|;
    while j > 0
      invariant 0 <= j <= |events| && ExchangeFrom(events, j).None?
    {
      assert !Terminal(events[j - 1]);
      j := j - 1;
    }
  }

  /**
   * The finish guard of sendTcp: only the first terminal event resolves, with the data
   * received before it; the write happens on `Connected` only while unresolved. An exchange
   * whose events run out unresolved ends by the socket's idle timeout, with null.
   */
  method SendTcp(events: seq<SocketEvent>) returns (result: Option<string>, wrote: bool)
    ensures result == Exchange(events) && (wrote <==> Writes(events))
    ensures forall i :: 0 <= i < |events| && Terminal(events[i]) && OpenFor(events, i) ==>
      result == FinishValue(events[i], Received(events[..i]))
    ensures OpenFor(events, |events|) ==> result.None?
    ensures wrote <==> exists i :: 0 <= i < |events| && events[i].Connected? && OpenFor(events, i)
  {
    var data := "";
    var resolved := false;
    result := None;
    wrote := false;
    var i := 0;
    while i < |events|
      invariant 0 <= i <= |events| && data == Received(events[..i])
      invariant !resolved <==> OpenFor(events, i)
      invariant !resolved ==> result.None? && ExchangeFrom(events, i) == Exchange(events)
      invariant resolved ==> result == Exchange(events)
      invariant wrote <==> exists k :: 0 <= k < i && events[k].Connected? && OpenFor(events, k)
    {
      var e := events[i];
      ReceivedNext(events, i);
      if e.Connected? {
        if !resolved {
          wrote := true;
        }
      } else if e.Data? {
        data := data + e.chunk;
      } else if !resolved {
        // finish(...): the first terminal event
        result := FinishValue(e, data);
        resolved := true;
      }
      assert forall k :: i < k <= |events| ==> (OpenFor(events, k) ==> OpenFor(events, i));
      i := i + 1;
    }
    forall j | 0 <= j < |events| && Terminal(events[j]) && OpenFor(events, j)
      ensures result == FinishValue(events[j], Received(events[..j]))
    {
      ExchangeFirstTerminal(events, j);
    }
    if OpenFor(events, |events|) {
      ExchangeOpen(events);
    }
  }

  /** One more event adds its chunk, if it carries one, to the data received. */
  lemma ReceivedNext(events: seq<SocketEvent>, i: nat)
    requires i < |events|
    ensures Received(events[..i + 1]) == Received(events[..i]) + (if events[i].Data? then events[i].chunk else "")
  {
    assert events[..i + 1][..i] == events[..i];
  }

  // ---------------------------------------------------------------- the queue and the host

  /** A queued command; its ticket stands for the promise its caller awaits. */
  datatype Item = Item(ticket: nat, cmd: string)

  /** JavaScript truthiness of an optional host: set and not the empty string. */
  predicate HostSet(host: Option<string>) {
    host.Some? && host.value != ""
  }

  /**
   * The host after wakeAndResolveHost: a set host is kept; otherwise it becomes the ip of the
   * first device discovery finds, and stays as it was when none is found.
   */
  function HostAfter(host: Option<string>, attempt: nat -> Option<Discovery.DiscoveredDevice>): Option<string> {
    if HostSet(host) then host
    else match Discovery.Discover(Discovery.UdpMaxRetries, attempt)
      case Some(d) => Some(d.ip)
      case None => host
  }

  /** Discovery on an unset host: the first attempt that finds a device gives the host its ip. */
  lemma HostAfterDiscovers(host: Option<string>, attempt: nat -> Option<Discovery.DiscoveredDevice>, k: nat)
    requires !HostSet(host) && k < Discovery.UdpMaxRetries && attempt(k).Some?
    requires forall j :: 0 <= j < k ==> attempt(j).None?
    ensures HostAfter(host, attempt) == Some(attempt(k).value.ip)
  {
    Discovery.FirstFoundAt(attempt, 0, Discovery.Attempts(Discovery.UdpMaxRetries), k);
  }

  /** Discovery on an unset host that finds nothing leaves the host as it was. */
  lemma HostAfterNoDevice(host: Option<string>, attempt: nat -> Option<Discovery.DiscoveredDevice>)
    requires !HostSet(host)
    requires forall j :: 0 <= j < Discovery.UdpMaxRetries ==> attempt(j).None?
    ensures HostAfter(host, attempt) == host
  {
    Discovery.FirstFoundNone(attempt, 0, Discovery.Attempts(Discovery.UdpMaxRetries));
  }

  /** Once the host is usable, later commands run no discovery and keep it. */
  lemma HostAfterSettles(host: Option<string>, a1: nat -> Option<Discovery.DiscoveredDevice>,
                         a2: nat -> Option<Discovery.DiscoveredDevice>)
    requires HostSet(HostAfter(host, a1))
    ensures HostAfter(HostAfter(host, a1), a2) == HostAfter(host, a1)
  {
  }

  class FourHeatClient {
    var busy: bool
    var queue: seq<Item>
    /** The item being executed, present exactly while `busy`. */
    var inFlight: Option<Item>
    var nextTicket: nat
    /** The value each resolved ticket's waiter received. */
    var results: map<nat, Option<string>>
    var host: Option<string>
    /** The command of every ticket issued, by ticket. */
    ghost var commands: seq<string>
    /** Every command written to a socket, in order. */
    ghost var written: seq<string>

    /** Tickets already resolved: all tickets before the in-flight one. */
    function Resolved(): int
      reads this
    {
      nextTicket - |queue| - (if busy then 1 else 0)
    }

    /**
     * Queue bookkeeping: the queue holds the newest tickets in arrival order, the in-flight
     * item is the one just before them, and exactly the older tickets have results.
     */
    ghost predicate Consistent()
      reads this
    {
      |commands| == nextTicket
      && (busy <==> inFlight.Some?)
      && 0 <= Resolved()
      && (forall k :: 0 <= k < |queue| ==>
            queue[k] == Item(nextTicket - |queue| + k, commands[nextTicket - |queue| + k]))
      && (inFlight.Some? ==> inFlight.value == Item(Resolved(), commands[Resolved()]))
      && (forall t: nat :: t in results <==> t < Resolved())
    }

    /** Between calls the queue is never left waiting while nothing runs. */
    ghost predicate Valid()
      reads this
    {
      Consistent() && (!busy ==> queue == [])
    }

    constructor(host: Option<string>)
      ensures Valid() && this.host == host
      ensures !busy && queue == [] && results == map[] && nextTicket == 0
    {
      busy := false;
      queue := [];
      inFlight := None;
      nextTicket := 0;
      results := map[];
      this.host := host;
      commands := [];
      written := [];
    }

    /** enqueue: appends the command at the tail, then lets processQueue start it if idle. */
    method Enqueue(cmd: string) returns (ticket: nat)
      requires Valid()
      modifies this
      ensures Valid() && busy
      ensures ticket == old(nextTicket) && nextTicket == old(nextTicket) + 1
      ensures commands == old(commands) + [cmd]
      ensures results == old(results) && host == old(host) && written == old(written)
      ensures old(busy) ==> queue == old(queue) + [Item(ticket, cmd)] && inFlight == old(inFlight)
      ensures !old(busy) ==> queue == [] && inFlight == Some(Item(ticket, cmd))
    {
      ticket := nextTicket;
      queue := queue + [Item(ticket, cmd)];
      commands := commands + [cmd];
      nextTicket := nextTicket + 1;
      ProcessQueue();
    }

    /** processQueue: nothing when busy or empty; otherwise the head is taken and becomes in flight. */
    method ProcessQueue()
      requires Consistent()
      modifies this
      ensures Valid()
      ensures nextTicket == old(nextTicket) && commands == old(commands)
      ensures results == old(results) && host == old(host) && written == old(written)
      ensures old(busy) || old(queue) == [] ==>
        busy == old(busy) && queue == old(queue) && inFlight == old(inFlight)
      ensures !old(busy) && old(queue) != [] ==>
        busy && inFlight == Some(old(queue)[0]) && queue == old(queue)[1..]
    {
      if busy || |queue| == 0 {
        return;
      }
      busy := true;
      var item := queue[0];
      queue := queue[1..];
      inFlight := Some(item);
    }

    /**
     * The in-flight command has finished, with its result or with null when it threw: its
     * waiter receives the value, `busy` is cleared and the next command is started.
     */
    method Complete(result: Option<string>)
      requires Valid() && busy
      modifies this
      ensures Valid()
      ensures old(inFlight).value.ticket == old(Resolved()) && old(inFlight).value.ticket !in old(results)
      ensures results == old(results)[old(inFlight).value.ticket := result]
      ensures nextTicket == old(nextTicket) && commands == old(commands)
      ensures host == old(host) && written == old(written)
      ensures old(queue) == [] ==> !busy && queue == [] && inFlight == None
      ensures old(queue) != [] ==> busy && inFlight == Some(old(queue)[0]) && queue == old(queue)[1..]
    {
      var item := inFlight.value;
      results := results[item.ticket := result];
      busy := false;
      inFlight := None;
      ProcessQueue();
    }

    /**
     * wakeAndResolveHost: a set host is returned without discovery; otherwise discovery runs
     * and a device found sets the host to its ip.
     */
    method WakeAndResolveHost(attempt: nat -> Option<Discovery.DiscoveredDevice>) returns (r: Option<string>, tries: nat)
      modifies this`host
      ensures host == HostAfter(old(host), attempt)
      ensures HostSet(old(host)) ==> r == old(host) && host == old(host) && tries == 0
      ensures !HostSet(old(host)) ==>
        tries <= Discovery.UdpMaxRetries && forall k :: 0 <= k < tries - 1 ==> attempt(k).None?
      ensures !HostSet(old(host)) ==>
        (r.None? <==> forall k :: 0 <= k < Discovery.UdpMaxRetries ==> attempt(k).None?)
      ensures !HostSet(old(host)) && r.Some? ==>
        tries >= 1 && attempt(tries - 1).Some? && r == Some(attempt(tries - 1).value.ip) && host == r
      ensures r.None? ==> host == old(host)
    {
      if HostSet(host) {
        return host, 0;
      }
      var device;
      device, tries := Discovery.WakeAndDiscover(Discovery.UdpMaxRetries, attempt);
      if device.Some? {
        host := Some(device.value.ip);
        return Some(device.value.ip), tries;
      }
      r := None;
    }

    /**
     * executeCommand: resolves the host and, when there is one, runs the TCP exchange.
     * `sent` tells whether a TCP exchange took place.
     */
    method ExecuteCommand(cmd: string, attempt: nat -> Option<Discovery.DiscoveredDevice>, events: seq<SocketEvent>)
      returns (resp: Option<string>, sent: bool)
      modifies this`host, this`written
      ensures host == HostAfter(old(host), attempt)
      ensures sent <==> HostSet(host)
      ensures resp == (if sent then Exchange(events) else None)
      ensures written == old(written) + (if sent && Writes(events) then [cmd] else [])
      ensures HostSet(old(host)) ==> host == old(host) && sent
      ensures !sent ==> resp.None?
      ensures sent ==> HostSet(host)
      ensures sent ==> OpenFor(events, |events|) ==> resp.None?
      ensures sent ==> forall i :: 0 <= i < |events| && Terminal(events[i]) && OpenFor(events, i) ==>
        resp == FinishValue(events[i], Received(events[..i]))
    {
      var h, tries := WakeAndResolveHost(attempt);
      if !HostSet(h) {
        return None, false;
      }
      var wrote;
      resp, wrote := SendTcp(events);
      if wrote {
        written := written + [cmd];
      }
      sent := true;
    }

    /** One run of the body of processQueue for the in-flight command, followed by the next start. */
    method RunHead(attempt: nat -> Option<Discovery.DiscoveredDevice>, events: seq<SocketEvent>)
      returns (ticket: nat, resp: Option<string>)
      requires Valid() && busy
      modifies this
      ensures Valid()
      ensures ticket == old(inFlight).value.ticket && ticket == old(Resolved())
      ensures results == old(results)[ticket := resp]
      ensures nextTicket == old(nextTicket) && commands == old(commands)
      ensures host == HostAfter(old(host), attempt)
      ensures resp == (if HostSet(host) then Exchange(events) else None)
      ensures written == old(written) + (if HostSet(host) && Writes(events) then [old(inFlight).value.cmd] else [])
      ensures HostSet(old(host)) ==> host == old(host)
      ensures old(queue) != [] ==> busy && inFlight == Some(old(queue)[0]) && queue == old(queue)[1..]
      ensures old(queue) == [] ==> !busy && queue == []
    {
      var item := inFlight.value;
      ticket := item.ticket;
      var sent;
      resp, sent := ExecuteCommand(item.cmd, attempt, events);
      Complete(resp);
    }
    /**
     * enqueue awaited on an idle client: the command runs at once and its waiter receives the
     * exchange's result.
     */
    method Request(cmd: string, attempt: nat -> Option<Discovery.DiscoveredDevice>, events: seq<SocketEvent>)
      returns (resp: Option<string>)
      requires Valid() && !busy
      modifies this
      ensures Valid() && !busy
      ensures commands == old(commands) + [cmd]
      ensures results == old(results)[old(nextTicket) := resp]
      ensures host == HostAfter(old(host), attempt)
      ensures resp == (if HostSet(host) then Exchange(events) else None)
      ensures written == old(written) + (if HostSet(host) && Writes(events) then [cmd] else [])
      ensures HostSet(old(host)) ==> host == old(host)
    {
      var ticket := Enqueue(cmd);
      var t;
      t, resp := RunHead(attempt, events);
    }

    /** readStatus: sends `["2WL","0"]` and folds the reply into a snapshot. */
    method ReadStatus(attempt: nat -> Option<Discovery.DiscoveredDevice>, events: seq<SocketEvent>)
      returns (state: Option<DeviceState>, raw: Option<string>)
      requires Valid() && !busy
      modifies this
      ensures Valid() && !busy
      ensures commands == old(commands) + [BuildStatusCommand()]
      ensures results == old(results)[old(nextTicket) := raw]
      ensures host == HostAfter(old(host), attempt) && (HostSet(old(host)) ==> host == old(host))
      ensures raw == (if HostSet(host) then Exchange(events) else None)
      ensures written == old(written) + (if HostSet(host) && Writes(events) then [BuildStatusCommand()] else [])
      ensures state == StatusOf(raw)
    {
      raw := Request(BuildStatusCommand(), attempt, events);
      state := Status.ReadStatus(raw);
    }

    /** writeParameter: sends the write command for the record and answers whether a reply came. */
    method WriteParameter(originalHex: string, newValue: int, attempt: nat -> Option<Discovery.DiscoveredDevice>,
                          events: seq<SocketEvent>) returns (ok: bool, resp: Option<string>)
      requires Valid() && !busy
      modifies this
      ensures Valid() && !busy
      ensures commands == old(commands) + [Build2WCCommand(originalHex, newValue)]
      ensures results == old(results)[old(nextTicket) := resp]
      ensures host == HostAfter(old(host), attempt) && (HostSet(old(host)) ==> host == old(host))
      ensures resp == (if HostSet(host) then Exchange(events) else None)
      ensures written == old(written) + (if HostSet(host) && Writes(events) then [Build2WCCommand(originalHex, newValue)] else [])
      ensures ok <==> resp.Some?
    {
      resp := Request(Build2WCCommand(originalHex, newValue), attempt, events);
      ok := Succeeded(resp);
    }

    /** turnOn: sends the on command and answers whether a reply came. */
    method TurnOn(attempt: nat -> Option<Discovery.DiscoveredDevice>, events: seq<SocketEvent>)
      returns (ok: bool, resp: Option<string>)
      requires Valid() && !busy
      modifies this
      ensures Valid() && !busy
      ensures commands == old(commands) + [BuildOnCommand()]
      ensures results == old(results)[old(nextTicket) := resp]
      ensures host == HostAfter(old(host), attempt) && (HostSet(old(host)) ==> host == old(host))
      ensures resp == (if HostSet(host) then Exchange(events) else None)
      ensures written == old(written) + (if HostSet(host) && Writes(events) then [BuildOnCommand()] else [])
      ensures ok <==> resp.Some?
    {
      resp := Request(BuildOnCommand(), attempt, events);
      ok := Succeeded(resp);
    }

    /** turnOff: sends the off command and answers whether a reply came. */
    method TurnOff(attempt: nat -> Option<Discovery.DiscoveredDevice>, events: seq<SocketEvent>)
      returns (ok: bool, resp: Option<string>)
      requires Valid() && !busy
      modifies this
      ensures Valid() && !busy
      ensures commands == old(commands) + [BuildOffCommand()]
      ensures results == old(results)[old(nextTicket) := resp]
      ensures host == HostAfter(old(host), attempt) && (HostSet(old(host)) ==> host == old(host))
      ensures resp == (if HostSet(host) then Exchange(events) else None)
      ensures written == old(written) + (if HostSet(host) && Writes(events) then [BuildOffCommand()] else [])
      ensures ok <==> resp.Some?
    {
      resp := Request(BuildOffCommand(), attempt, events);
      ok := Succeeded(resp);
    }

    /** resetError: sends `["RST","0"]`; an `"OK"` reply and any other reply both count as success. */
    method ResetError(attempt: nat -> Option<Discovery.DiscoveredDevice>, events: seq<SocketEvent>)
      returns (ok: bool, resp: Option<string>)
      requires Valid() && !busy
      modifies this
      ensures Valid() && !busy
      ensures commands == old(commands) + [BuildResetCommand()]
      ensures results == old(results)[old(nextTicket) := resp]
      ensures host == HostAfter(old(host), attempt) && (HostSet(old(host)) ==> host == old(host))
      ensures resp == (if HostSet(host) then Exchange(events) else None)
      ensures written == old(written) + (if HostSet(host) && Writes(events) then [BuildResetCommand()] else [])
      ensures ok <==> resp.Some?
    {
      resp := Request(BuildResetCommand(), attempt, events);
      ok := ResetErrorResult(resp);
    }

    /** readSchedule: sends `["CCG","0"]` and parses the reply into a weekly schedule. */
    method ReadSchedule(attempt: nat -> Option<Discovery.DiscoveredDevice>, events: seq<SocketEvent>)
      returns (schedule: Option<Crono.CronoSchedule>, raw: Option<string>)
      requires Valid() && !busy
      modifies this
      ensures Valid() && !busy
      ensures commands == old(commands) + [Crono.BuildCCGCommand()]
      ensures results == old(results)[old(nextTicket) := raw]
      ensures host == HostAfter(old(host), attempt) && (HostSet(old(host)) ==> host == old(host))
      ensures raw == (if HostSet(host) then Exchange(events) else None)
      ensures written == old(written) + (if HostSet(host) && Writes(events) then [Crono.BuildCCGCommand()] else [])
      ensures schedule.Some? ==> raw.Some? && schedule == Crono.ScheduleFromResponse(raw.value)
      ensures raw.Some? && raw.value != "" ==> schedule == Crono.ScheduleFromResponse(raw.value)
    {
      raw := Request(Crono.BuildCCGCommand(), attempt, events);
      if raw.None? || raw.value == "" {
        return None, raw;
      }
      schedule := Crono.ParseCCGResponse(raw.value);
    }

    /** writeSchedule: sends a prepared CCS command and answers whether a reply came. */
    method WriteSchedule(command: string, attempt: nat -> Option<Discovery.DiscoveredDevice>,
                         events: seq<SocketEvent>) returns (ok: bool, resp: Option<string>)
      requires Valid() && !busy
      modifies this
      ensures Valid() && !busy
      ensures commands == old(commands) + [command]
      ensures results == old(results)[old(nextTicket) := resp]
      ensures host == HostAfter(old(host), attempt) && (HostSet(old(host)) ==> host == old(host))
      ensures resp == (if HostSet(host) then Exchange(events) else None)
      ensures written == old(written) + (if HostSet(host) && Writes(events) then [command] else [])
      ensures ok <==> resp.Some?
    {
      resp := Request(command, attempt, events);
      ok := Succeeded(resp);
    }
  }

  // ---------------------------------------------------------------- what the operations make of a reply

  /** writeParameter, turnOn, turnOff and writeSchedule: true iff a reply came back. */
  function Succeeded(resp: Option<string>): bool {
    resp != None
  }

  /** resetError: true on a reply holding `"OK"`, otherwise true iff a reply came back. */
  function ResetErrorResult(resp: Option<string>): (r: bool)
    ensures r == Succeeded(resp)
  {
    if resp.Some? && resp.value != "" && Includes(resp.value, "\"OK\"") then true
    else resp != None
  }
}
