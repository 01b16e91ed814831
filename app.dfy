/** The application object of ofApp.cpp: the map from identifier to graphed
    variable, filled by `setup`, appended to by `update` and read by `draw`. */
module App {
  import opened Numeric
  import opened Graphed
  import opened Screen
  import opened Ingestion
  import opened Config

  /** The polyline of one variable, as the inner loop of `draw` produces it:
      the front sample is mapped first, then each further sample is mapped
      and joined to the previous screen position. */
  method DrawVariable(v: GraphedVariable) returns (segs: seq<Segment>)
    requires v.Valid()
    ensures IsPolylineOf(segs, v.CurrentAxes(), v.samples)
  {
    var axes := v.CurrentAxes();
    var lastXY := SampleToScreen(axes, v.samples[0]);
    segs := [];
    var i := 1;
    while i < |v.samples|
      invariant 1 <= i <= |v.samples|
      invariant |segs| == i - 1
      invariant lastXY == SampleToScreen(axes, v.samples[i - 1])
      invariant forall j :: 0 <= j < i - 1 ==>
        segs[j] == Segment(SampleToScreen(axes, v.samples[j]), SampleToScreen(axes, v.samples[j + 1]))
    {
      var nextXY := SampleToScreen(axes, v.samples[i]);
      segs := segs + [Segment(lastXY, nextXY)];
      lastXY := nextXY;
      i := i + 1;
    }
  }

  class OfApp {
    /** The graphed variables, keyed by identifier. */
    var variables: map<Uint32, GraphedVariable>

    /** Every variable is filed under its own identifier and holds at least
        one sample. Distinct keys therefore hold distinct objects. */
    ghost predicate Valid()
      reads this, variables.Values
      ensures Valid() ==> forall k1, k2 :: k1 in variables && k2 in variables && k1 != k2 ==> variables[k1] != variables[k2]
    {
      forall k :: k in variables ==> variables[k].id == k && variables[k].Valid()
    }

    /** Every variable's samples, keyed by identifier. */
    ghost function Windows(): Windows
      reads this, variables.Values
    {
      map k | k in variables :: variables[k].samples
    }

    /** Every variable's name, keyed by identifier. */
    ghost function Names(): map<Uint32, string>
      reads this, variables.Values
    {
      map k | k in variables :: variables[k].name
    }

    /** Before `setup` no variable exists. */
    constructor ()
      ensures Valid() && variables == map[]
    {
      variables := map[];
    }

    /** `variables[id] = make_shared<GraphedVariable>(id, name)`: files a
        fresh variable under id, replacing any variable filed there. */
    method Register(id: Uint32, name: string)
      requires Valid()
      modifies this
      ensures Valid()
      ensures variables.Keys == old(variables).Keys + {id}
      ensures Names() == old(Names())[id := name]
      ensures fresh(variables[id]) && variables[id].IsNew()
      ensures forall k :: k in old(variables) && k != id ==> variables[k] == old(variables[k])
    {
      var v := new GraphedVariable(id, name);
      variables := variables[id := v];
    }

    /** `setup` without its MIDI part: fills in the connection defaults and
        returns the address the subscriber connects to, then registers the
        `variable` entries. */
    method Setup(cfg: Configuration) returns (addr: string)
      requires Valid()
      modifies this
      ensures Valid()
      ensures addr == ConnectAddress(cfg.connection)
      ensures variables.Keys == old(variables).Keys + DeclaredIds(cfg.variables)
      ensures Names() == Registered(old(Names()), cfg.variables)
      ensures forall k :: k in DeclaredIds(cfg.variables) ==>
        fresh(variables[k]) && variables[k].IsNew()
      ensures forall k :: k in old(variables) && k !in DeclaredIds(cfg.variables) ==>
        variables[k] == old(variables[k])
    {
      var c := cfg.connection;
      var protocol := if c.protocol.Some? then c.protocol.value else "tcp";
      var host := if c.host.Some? then c.host.value else "localhost";
      var port: Uint32 := if c.port.Some? then c.port.value else 8889;
      addr := Address(protocol, host, port);
      RegisterAll(cfg.variables);
    }

    /** The `variable` loop of `setup`: one fresh variable per complete
        entry, in order; an entry without a name or an id is skipped; a
        repeated id replaces the earlier variable. */
    method RegisterAll(entries: seq<VariableEntry>)
      requires Valid()
      modifies this
      ensures Valid()
      ensures variables.Keys == old(variables).Keys + DeclaredIds(entries)
      ensures Names() == Registered(old(Names()), entries)
      ensures forall k :: k in DeclaredIds(entries) ==>
        fresh(variables[k]) && variables[k].IsNew()
      ensures forall k :: k in old(variables) && k !in DeclaredIds(entries) ==>
        variables[k] == old(variables[k])
    {
      ghost var names0 := Names();
      var i := 0;
      while i < |entries|
        invariant 0 <= i <= |entries|
        invariant Valid()
        invariant variables.Keys == old(variables).Keys + DeclaredIds(entries[..i])
        invariant Names() == Registered(names0, entries[..i])
        invariant forall k :: k in DeclaredIds(entries[..i]) ==>
          fresh(variables[k]) && variables[k].IsNew()
        invariant forall k :: k in old(variables) && k !in DeclaredIds(entries[..i]) ==>
          variables[k] == old(variables[k])
      {
        var descr := entries[i];
        RegisteredNext(names0, entries, i);
        if descr.name.Some? && descr.id.Some? {
          Register(descr.id.value, descr.name.value);
        }
        i := i + 1;
      }
      assert entries[..i] == entries;
    }

    /** `variables[id]->samples->push_back(s)` for a key id: that variable
        gains s at the back; no other variable and no other field changes. */
    method AppendSample(id: Uint32, s: Sample)
      requires Valid() && id in variables
      modifies (variables[id] as GraphedVariable)`samples
      ensures Valid()
      ensures Windows() == old(Windows())[id := old(Windows())[id] + [s]]
    {
      ghost var windows := Windows();
      var v := variables[id];
      v.PushSample(s);
      forall k | k in variables && k != id
        ensures variables[k].samples == windows[k]
      {
        assert variables[k].id != v.id;
      }
      assert Windows() == windows[id := windows[id] + [s]];
    }

    /** The parsing loop of `update`: each triple whose truncated identifier
        is a key is appended to that variable's samples; any other triple is
        dropped. Only the `samples` fields change, as the frame says. */
    method Ingest(message: seq<Triple>)
      requires Valid()
      requires AllHaveChannelIds(message)
      modifies variables.Values`samples
      ensures Valid()
      ensures variables == old(variables)
      ensures Windows() == Ingested(old(Windows()), message)
    {
      ghost var windows0 := Windows();
      var i := 0;
      while i < |message|
        invariant 0 <= i <= |message|
        invariant Valid()
        invariant Windows() == Ingested(windows0, message[..i])
      {
        var tr := message[i];
        IngestedNext(windows0, message, i);
        ghost var before := Windows();
        var iid := ChannelId(tr);
        if iid in variables {
          AppendSample(iid, SampleOf(tr));
        }
        assert Windows() == IngestOne(before, tr);
        i := i + 1;
      }
      assert message[..i] == message;
    }

    /** `draw`: the polyline of every variable. */
    method Draw() returns (lines: map<Uint32, seq<Segment>>)
      requires Valid()
      ensures lines.Keys == variables.Keys
      ensures forall k :: k in lines ==>
        IsPolylineOf(lines[k], variables[k].CurrentAxes(), variables[k].samples)
    {
      lines := map[];
      var todo := variables.Keys;
      while todo != {}
        invariant todo <= variables.Keys
        invariant lines.Keys == variables.Keys - todo
        invariant forall k :: k in lines ==>
          IsPolylineOf(lines[k], variables[k].CurrentAxes(), variables[k].samples)
        decreases todo
      {
        var k :| k in todo;
        var segs := DrawVariable(variables[k]);
        lines := lines[k := segs];
        todo := todo - {k};
      }
    }
  }
}
