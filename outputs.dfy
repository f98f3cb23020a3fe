/**
 * Resolution of the configured output descriptors into output sinks, once at
 * startup: a WebSocket sink for the simulator when one is configured, then one
 * E1.31 sink per `'e131'` descriptor, in configuration order. Any other
 * descriptor type is a fatal error.
 */
module Outputs {
  import opened Common

  /** The `simulator` table of the configuration. */
  datatype SimulatorConfig = SimulatorConfig(port: Option<int>, webSocketPort: Option<int>)

  /** One entry of the `outputs` list; the channel map is handed to the E1.31
      sender unchanged. */
  datatype OutputConfig = OutputConfig(kind: string, host: string, channels: seq<int>)

  datatype Output =
    | WebSocketOutput(port: int)
    | E131Output(host: string, channels: seq<int>)

  datatype OutputError = UnknownOutputType(kind: string)

  const E131 := "e131"

  /** `config.port || 3000`: a missing or zero port falls back to 3000. */
  function SimulatorPort(config: SimulatorConfig): int
  {
    match config.port
    case Some(p) => if p != 0 then p else 3000
    case None => 3000
  }

  /** `config.webSocketPort || port + 1`. */
  function SimulatorWebSocketPort(config: SimulatorConfig): int
  {
    match config.webSocketPort
    case Some(p) => if p != 0 then p else SimulatorPort(config) + 1
    case None => SimulatorPort(config) + 1
  }

  /** The simulator's WebSocket port follows its HTTP port unless set, and
      a zero setting counts as unset. */
  lemma SimulatorPortDefaults(port: int, webSocketPort: int, p: Option<int>, w: Option<int>)
    ensures SimulatorWebSocketPort(SimulatorConfig(Some(0), w)) == SimulatorWebSocketPort(SimulatorConfig(None, w))
    ensures SimulatorWebSocketPort(SimulatorConfig(p, Some(0))) == SimulatorWebSocketPort(SimulatorConfig(p, None))
    ensures SimulatorWebSocketPort(SimulatorConfig(None, None)) == 3001
    ensures SimulatorWebSocketPort(SimulatorConfig(Some(0), Some(0))) == 3001
    ensures port != 0 ==> SimulatorWebSocketPort(SimulatorConfig(Some(port), None)) == port + 1
    ensures webSocketPort != 0 ==>
      SimulatorWebSocketPort(SimulatorConfig(Some(port), Some(webSocketPort))) == webSocketPort
  {
  }

  predicate AllE131(descriptors: seq<OutputConfig>)
  {
    forall i :: 0 <= i < |descriptors| ==> descriptors[i].kind == E131
  }

  /** The position of the first descriptor whose type is not `'e131'`. */
  function FirstUnknown(descriptors: seq<OutputConfig>): (i: nat)
    requires !AllE131(descriptors)
    ensures i < |descriptors| && descriptors[i].kind != E131
    ensures AllE131(descriptors[..i])
  {
    if descriptors[0].kind != E131 then 0
    else
      assert descriptors == [descriptors[0]] + descriptors[1..];
      var i := 1 + FirstUnknown(descriptors[1..]);
      assert descriptors[..i] == [descriptors[0]] + descriptors[1..][..i - 1];
      i
  }

  /** A descriptor that is not `'e131'`, preceded only by `'e131'` ones, is
      the first unknown one. */
  lemma {:induction false} FirstUnknownAt(descriptors: seq<OutputConfig>, i: nat)
    requires i < |descriptors| && descriptors[i].kind != E131
    requires AllE131(descriptors[..i])
    ensures !AllE131(descriptors) && FirstUnknown(descriptors) == i
  {
    if i > 0 {
      assert descriptors[..i][0] == descriptors[0];
      assert descriptors[1..][..i - 1] == descriptors[..i][1..];
      FirstUnknownAt(descriptors[1..], i - 1);
    }
  }

  /** The sinks the simulator contributes: its WebSocket feed, when configured. */
  function SimulatorOutputs(simulator: Option<SimulatorConfig>): seq<Output>
  {
    match simulator
    case Some(config) => [WebSocketOutput(SimulatorWebSocketPort(config))]
    case None => []
  }

  /** The E1.31 sinks of `descriptors`, appended one per descriptor. */
  function E131Sinks(descriptors: seq<OutputConfig>): seq<Output>
  {
    if descriptors == [] then []
    else
      var last := descriptors[|descriptors| - 1];
      E131Sinks(descriptors[..|descriptors| - 1]) + [E131Output(last.host, last.channels)]
  }

  /** There is one E1.31 sink per descriptor, in order, each with that
      descriptor's host and channel map. */
  lemma {:induction false} E131SinksAt(descriptors: seq<OutputConfig>)
    ensures |E131Sinks(descriptors)| == |descriptors|
    ensures forall i :: 0 <= i < |descriptors| ==>
      E131Sinks(descriptors)[i] == E131Output(descriptors[i].host, descriptors[i].channels)
  {
    if descriptors != [] {
      var init := descriptors[..|descriptors| - 1];
      E131SinksAt(init);
      forall i | 0 <= i < |descriptors|
        ensures E131Sinks(descriptors)[i] == E131Output(descriptors[i].host, descriptors[i].channels)
      {
        if i < |init| {
          assert descriptors[i] == init[i];
        }
      }
    }
  }

  /** The sinks the configuration describes; a missing `outputs` list reads as empty. */
  function ResolveOutputs(simulator: Option<SimulatorConfig>, outputs: Option<seq<OutputConfig>>)
    : Result<seq<Output>, OutputError>
  {
    var descriptors := match outputs case Some(ds) => ds case None => [];
    if AllE131(descriptors) then
      Ok(SimulatorOutputs(simulator) + E131Sinks(descriptors))
    else
      Err(UnknownOutputType(descriptors[FirstUnknown(descriptors)].kind))
  }

  /** Indexing into a concatenation, kept apart from `E131Layout` so that the
      solver meets the sequence axioms without the resolution's definition. */
  lemma SplitAt(front: seq<Output>, back: seq<Output>)
    ensures (front + back)[..|front|] == front
    ensures forall i :: 0 <= i < |back| ==> (front + back)[|front| + i] == back[i]
  {
    assert (front + back)[..|front|] == front;
  }

  /** When every descriptor is `'e131'`, the sinks are the simulator's, then
      one E1.31 sink per descriptor in order. */
  lemma E131Layout(simulator: Option<SimulatorConfig>, descriptors: seq<OutputConfig>)
    requires AllE131(descriptors)
    ensures ResolveOutputs(simulator, Some(descriptors)).Ok?
    ensures var sinks := ResolveOutputs(simulator, Some(descriptors)).value;
      var first := |SimulatorOutputs(simulator)|;
      sinks[..first] == SimulatorOutputs(simulator) && |sinks| == first + |descriptors| &&
      forall i :: 0 <= i < |descriptors| ==>
        sinks[first + i] == E131Output(descriptors[i].host, descriptors[i].channels)
  {
    var front, e131 := SimulatorOutputs(simulator), E131Sinks(descriptors);
    assert ResolveOutputs(simulator, Some(descriptors)) == Ok(front + e131);
    E131SinksAt(descriptors);
    SplitAt(front, e131);
  }

  /** Resolution succeeds exactly when every descriptor is `'e131'`. Then the
      WebSocket sink comes first if and only if a simulator is configured, and
      one E1.31 sink per descriptor follows, in configuration order. Otherwise
      the error names the type of the first descriptor that is not `'e131'`. */
  lemma ResolveOutputsShape(simulator: Option<SimulatorConfig>, descriptors: seq<OutputConfig>)
    ensures ResolveOutputs(simulator, None) == ResolveOutputs(simulator, Some([]))
    ensures ResolveOutputs(simulator, Some(descriptors)).Ok? <==> AllE131(descriptors)
    ensures ResolveOutputs(simulator, Some(descriptors)).Ok? ==>
      var sinks := ResolveOutputs(simulator, Some(descriptors)).value;
      var first := if simulator.Some? then 1 else 0;
      |sinks| == first + |descriptors| &&
      (|sinks| > 0 && sinks[0].WebSocketOutput? <==> simulator.Some?) &&
      (forall i :: 0 <= i < |descriptors| ==>
         sinks[first + i] == E131Output(descriptors[i].host, descriptors[i].channels))
    ensures ResolveOutputs(simulator, Some(descriptors)).Err? ==>
      exists i :: 0 <= i < |descriptors| && descriptors[i].kind != E131 &&
        AllE131(descriptors[..i]) &&
        ResolveOutputs(simulator, Some(descriptors)).error == UnknownOutputType(descriptors[i].kind)
  {
    if AllE131(descriptors) {
      E131Layout(simulator, descriptors);
      var sinks := ResolveOutputs(simulator, Some(descriptors)).value;
      if simulator.Some? {
        assert sinks[..1] == [WebSocketOutput(SimulatorWebSocketPort(simulator.value))];
        assert sinks[0] == sinks[..1][0];
      } else if |descriptors| > 0 {
        assert sinks[0 + 0] == E131Output(descriptors[0].host, descriptors[0].channels);
      }
    } else {
      var i := FirstUnknown(descriptors);
      assert ResolveOutputs(simulator, Some(descriptors)) == Err(UnknownOutputType(descriptors[i].kind));
    }
  }

  /** Build the list of sinks, pushing one per descriptor and throwing at the
      first descriptor of an unknown type. */
  method BuildOutputs(simulator: Option<SimulatorConfig>, outputs: Option<seq<OutputConfig>>)
    returns (r: Result<seq<Output>, OutputError>)
    ensures r == ResolveOutputs(simulator, outputs)
  {
    var result: seq<Output> := [];
    if simulator.Some? {
      result := result + [WebSocketOutput(SimulatorWebSocketPort(simulator.value))];
    }
    var descriptors := if outputs.Some? then outputs.value else [];
    for i := 0 to |descriptors|
      invariant AllE131(descriptors[..i])
      invariant result == SimulatorOutputs(simulator) + E131Sinks(descriptors[..i])
    {
      var config := descriptors[i];
      if config.kind == E131 {
        result := result + [E131Output(config.host, config.channels)];
        assert descriptors[..i + 1][..i] == descriptors[..i];
      } else {
        FirstUnknownAt(descriptors, i);
        return Err(UnknownOutputType(config.kind));
      }
    }
    assert descriptors[..|descriptors|] == descriptors;
    r := Ok(result);
  }
}
