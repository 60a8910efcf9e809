/** The adapter's subdevice cache (audio/sysvad/common.cpp) and the reference counts of the ports
    and miniports that InstallEndpointFilters puts into it, takes out of it and hands out. */
module SubdeviceCache {
  import opened Words

  /** MINIPAIR_UNKNOWN: objects are numbered; `power` tells whether the miniport also gave its
      power management interface, a second reference to it. */
  datatype Record = Record(name: string, port: nat, miniport: nat, power: bool)

  /** The references of one record on an object. */
  function RecordRefs(r: Record, x: nat): nat {
    (if r.port == x then 1 else 0) + (if r.miniport == x then 1 + (if r.power then 1 else 0) else 0)
  }

  function CacheRefs(cache: seq<Record>, x: nat): nat {
    if cache == [] then 0 else RecordRefs(cache[0], x) + CacheRefs(cache[1..], x)
  }

  /** The position of the first record of that name, or the length. */
  function Position(cache: seq<Record>, name: string): (i: nat)
    ensures i <= |cache|
    ensures i < |cache| ==> cache[i].name == name
    ensures forall k :: 0 <= k < i ==> cache[k].name != name
  {
    if cache == [] || cache[0].name == name then 0 else 1 + Position(cache[1..], name)
  }

  ghost predicate Has(cache: seq<Record>, name: string) {
    Position(cache, name) < |cache|
  }

  ghost predicate Distinct(cache: seq<Record>) {
    forall i, j :: 0 <= i < j < |cache| ==> cache[i].name != cache[j].name
  }

  function One(o: Option<nat>, x: nat): nat {
    if o == Some(x) then 1 else 0
  }

  lemma {:induction false} RefsAppend(cache: seq<Record>, r: Record, x: nat)
    ensures CacheRefs(cache + [r], x) == CacheRefs(cache, x) + RecordRefs(r, x)
  {
    if cache == [] {
      assert cache + [r] == [r] && [r][1..] == [];
    } else {
      assert (cache + [r])[1..] == cache[1..] + [r];
      RefsAppend(cache[1..], r, x);
    }
  }

  lemma {:induction false} RefsRemove(cache: seq<Record>, i: nat, x: nat)
    requires i < |cache|
    ensures CacheRefs(cache, x) == CacheRefs(cache[..i] + cache[i + 1..], x) + RecordRefs(cache[i], x)
  {
    if i == 0 {
      assert cache[..0] + cache[1..] == cache[1..];
    } else {
      assert (cache[..i] + cache[i + 1..])[1..] == cache[1..][..i - 1] + cache[1..][i..];
      RefsRemove(cache[1..], i - 1, x);
    }
  }

  /** The cache without the record of that name, if it has one. */
  function Removed(cache: seq<Record>, name: string): seq<Record> {
    var i := Position(cache, name);
    if i < |cache| then cache[..i] + cache[i + 1..] else cache
  }

  lemma PositionAppend(cache: seq<Record>, r: Record, name: string)
    ensures Position(cache + [r], name)
         == if Has(cache, name) then Position(cache, name) else if r.name == name then |cache| else |cache| + 1
  {
    var i := Position(cache + [r], name);
    if Has(cache, name) {
      var k := Position(cache, name);
      assert (cache + [r])[k].name == name;
      assert forall j :: 0 <= j < |cache| ==> (cache + [r])[j] == cache[j];
    } else {
      forall k | 0 <= k < |cache| ensures (cache + [r])[k].name != name {
        assert (cache + [r])[k] == cache[k];
      }
      assert (cache + [r])[|cache|] == r;
    }
  }

  /** Removing a name that was only just appended gives the old cache back. */
  lemma RemoveAppended(cache: seq<Record>, r: Record)
    requires !Has(cache, r.name)
    ensures Removed(cache + [r], r.name) == cache
  {
    PositionAppend(cache, r, r.name);
    assert (cache + [r])[..|cache|] + (cache + [r])[|cache| + 1..] == cache;
  }

  lemma RemoveFirstOfTwo(cache: seq<Record>, a: Record, b: Record)
    requires !Has(cache, a.name)
    ensures Removed(cache + [a] + [b], a.name) == cache + [b]
  {
    PositionAppend(cache, a, a.name);
    PositionAppend(cache + [a], b, a.name);
    assert (cache + [a] + [b])[..|cache|] + (cache + [a] + [b])[|cache| + 1..] == cache + [b];
  }

  /** The cache has the name, with these objects. */
  ghost predicate Recorded(cache: seq<Record>, name: string, port: Option<nat>, miniport: Option<nat>) {
    Has(cache, name) && port == Some(cache[Position(cache, name)].port)
      && miniport == Some(cache[Position(cache, name)].miniport)
  }

  /** What the cache has under the name is handed out, as far as it is wanted. */
  ghost predicate HandedOut(cache: seq<Record>, name: string, wantPort: bool, wantMiniport: bool,
                            port: Option<nat>, miniport: Option<nat>) {
    Has(cache, name)
      && port == (if wantPort then Some(cache[Position(cache, name)].port) else None)
      && miniport == (if wantMiniport then Some(cache[Position(cache, name)].miniport) else None)
  }

  /** The wave filter is found in the cache: it was there, or the topology filter of the same name has
      just been put there. */
  ghost predicate Found(cache: seq<Record>, waveName: string, topoName: string, topo: Answers) {
    Has(cache, waveName) || (waveName == topoName && topo.install && topo.record)
  }

  /** Whether a call succeeds: both filters are there and can be connected; or the topology filter
      could not be installed and the wave filter is in the cache. */
  ghost predicate Succeeds(cache: seq<Record>, topoName: string, waveName: string, topo: Answers, wave: Answers, connects: bool) {
    var found := Found(cache, waveName, topoName, topo);
    if (Has(cache, topoName) || topo.install) && (found || wave.install) then connects
    else found || (wave.install && wave.record)
  }

  lemma HandsOut(cache: seq<Record>, name: string, wantPort: bool, wantMiniport: bool, port: Option<nat>, miniport: Option<nat>)
    ensures Recorded(cache, name, port, miniport) ==>
      HandedOut(cache, name, wantPort, wantMiniport, if wantPort then port else None, if wantMiniport then miniport else None)
  {
  }

  lemma RecordedStays(cache: seq<Record>, after: seq<Record>, name: string, port: Option<nat>, miniport: Option<nat>)
    requires Recorded(cache, name, port, miniport) && (after == cache || (|after| > 0 && after[..|after| - 1] == cache))
    ensures Recorded(after, name, port, miniport)
  {
    if after != cache {
      assert after == cache + [after[|after| - 1]];
      PositionAppend(cache, after[|after| - 1], name);
    }
  }

  /** What the kernel answers in one InstallEndpointFilters call, for each of the two subdevices:
      whether it can be installed, whether a record can be allocated, whether it has power
      management; and whether the two can be connected. */
  datatype Answers = Answers(install: bool, record: bool, power: bool)

  /** Which of the four optional out parameters the caller passes. */
  datatype Wanted = Wanted(topology: bool, wave: bool, miniTopology: bool, miniWave: bool)

  /** A record holds one reference on its port and one on its miniport, and another for the miniport's
      power management if it has any; a returned pointer holds one. */
  lemma RecordHolds(r: Record, x: nat)
    requires r.port != r.miniport
    ensures RecordRefs(r, r.port) == 1 && RecordRefs(r, r.miniport) == (if r.power then 2 else 1)
    ensures x != r.port && x != r.miniport ==> RecordRefs(r, x) == 0
    ensures One(Some(x), x) == 1 && One(None, x) == 0 && forall y: nat | y != x :: One(Some(y), x) == 0
  {
  }

  class AdapterCommon {
    var cache: seq<Record>
    var refs: seq<int>           // the reference count of every object there has been

    constructor ()
      ensures cache == [] && refs == [] && Distinct(cache) && Known()
    {
      cache, refs := [], [];
    }

    ghost predicate Known()
      reads this
    {
      forall i :: 0 <= i < |cache| ==> cache[i].port < |refs| && cache[i].miniport < |refs|
    }

    /** References on an object held outside the cache. */
    function Outside(x: nat): int
      requires x < |refs|
      reads this
    {
      refs[x] - CacheRefs(cache, x)
    }

    method AddRef(x: nat)
      requires x < |refs|
      modifies this`refs
      ensures refs == old(refs)[x := old(refs)[x] + 1]
    {
      refs := refs[x := refs[x] + 1];
    }

    method Release(x: nat)
      requires x < |refs|
      modifies this`refs
      ensures refs == old(refs)[x := old(refs)[x] - 1]
    {
      refs := refs[x := refs[x] - 1];
    }

    /** Two new references for the caller when the name is cached. */
    method GetCachedSubdevice(name: string) returns (port: Option<nat>, miniport: Option<nat>)
      requires Known()
      modifies this`refs
      ensures Known() && |refs| == |old(refs)|
      ensures port.Some? == miniport.Some? == Has(cache, name)
      ensures port.Some? ==> Recorded(cache, name, port, miniport) && port.value < |refs| && miniport.value < |refs|
      ensures forall x: nat :: x < |refs| ==> refs[x] == old(refs)[x] + One(port, x) + One(miniport, x)
    {
      port, miniport := None, None;
      for i := 0 to |cache|
        invariant forall k :: 0 <= k < i ==> cache[k].name != name
        invariant port == None && miniport == None && refs == old(refs)
      {
        if cache[i].name == name {
          assert i == Position(cache, name);
          port, miniport := Some(cache[i].port), Some(cache[i].miniport);
          AddRef(cache[i].port);
          AddRef(cache[i].miniport);
          return;
        }
      }
    }

    method CacheSubdevice(name: string, port: nat, miniport: nat, answers: Answers) returns (ok: bool)
      requires Known() && port < |refs| && miniport < |refs|
      modifies this
      ensures Known() && |refs| == |old(refs)| && ok == answers.record
      ensures cache == if ok then old(cache) + [Record(name, port, miniport, answers.power)] else old(cache)
      ensures forall x: nat :: x < |refs| ==> Outside(x) == old(Outside(x))
    {
      ok := answers.record;
      if ok {
        AddRef(port);
        AddRef(miniport);
        if answers.power {
          AddRef(miniport);
        }
        var r := Record(name, port, miniport, answers.power);
        forall x: nat | x < |refs| ensures CacheRefs(cache + [r], x) == CacheRefs(cache, x) + RecordRefs(r, x) {
          RefsAppend(cache, r, x);
        }
        cache := cache + [r];
      }
    }

    method RemoveCachedSubdevice(name: string)
      requires Known()
      modifies this
      ensures Known() && |refs| == |old(refs)| && cache == Removed(old(cache), name)
      ensures forall x: nat :: x < |refs| ==> Outside(x) == old(Outside(x))
    {
      for i := 0 to |cache|
        invariant forall k :: 0 <= k < i ==> cache[k].name != name
        invariant cache == old(cache) && refs == old(refs)
      {
        if cache[i].name == name {
          assert i == Position(cache, name);
          RemoveAt(i);
          return;
        }
      }
    }

    /** The references of record `i` are released and the record deleted. */
    method RemoveAt(i: nat)
      requires Known() && i < |cache|
      modifies this
      ensures |refs| == |old(refs)| && cache == old(cache)[..i] + old(cache)[i + 1..]
      ensures forall x: nat :: x < |refs| ==> Outside(x) == old(Outside(x))
    {
      var r := cache[i];
      Release(r.port);
      Release(r.miniport);
      if r.power {
        Release(r.miniport);
      }
      forall x: nat | x < |refs| ensures CacheRefs(cache, x) == CacheRefs(cache[..i] + cache[i + 1..], x) + RecordRefs(r, x) {
        RefsRemove(cache, i, x);
      }
      cache := cache[..i] + cache[i + 1..];
    }

    /** The cached subdevice, or a newly installed and cached one. The references in `port` and
        `miniport` are the caller's to release. */
    method FindOrInstall(name: string, answers: Answers)
      returns (port: Option<nat>, miniport: Option<nat>, created: bool, ok: bool)
      requires Known()
      modifies this
      ensures Known() && |old(refs)| <= |refs|
      ensures created == !old(Has(cache, name))
      ensures !created || ok ==> Recorded(cache, name, port, miniport)
      ensures created && port.Some? ==> miniport.Some? && port.value >= |old(refs)| && miniport.value >= |old(refs)|
      ensures port.Some? == miniport.Some? == (!created || answers.install)
      ensures port.Some? ==> port.value < |refs| && miniport.value < |refs|
      ensures ok == (!created || (answers.install && answers.record))
      ensures created && ok ==> cache == old(cache) + [Record(name, port.value, miniport.value, answers.power)]
      ensures !(created && ok) ==> cache == old(cache)
      ensures forall x: nat :: x < |refs| ==>
        Outside(x) == (if x < |old(refs)| then old(Outside(x)) else 0) + One(port, x) + One(miniport, x)
    {
      port, miniport := GetCachedSubdevice(name);
      created, ok := port == None, true;
      if created {
        ok := answers.install;
        if answers.install {
          NoRefsBeyond();
          port, miniport := Some(|refs|), Some(|refs| + 1);
          refs := refs + [1, 1];
          ok := CacheSubdevice(name, port.value, miniport.value, answers);
          PositionAppend(old(cache), Record(name, port.value, miniport.value, answers.power), name);
        }
      }
    }

    /** The cache holds nothing on objects there are not. */
    lemma NoRefsBeyond()
      requires Known()
      ensures forall x: nat :: x >= |refs| ==> CacheRefs(cache, x) == 0
    {
      forall x: nat | x >= |refs| ensures CacheRefs(cache, x) == 0 {
        NoRefs(cache, x);
      }
    }

    /** AddRef for an out parameter if there is one to set, then the release of the local pointer. */
    method PassOn(wanted: bool, o: Option<nat>) returns (out: Option<nat>)
      requires o.Some? ==> o.value < |refs|
      modifies this`refs
      ensures out == (if wanted then o else None) && |refs| == |old(refs)|
      ensures forall x: nat :: x < |refs| ==> refs[x] == old(refs)[x] + One(out, x) - One(o, x)
    {
      out := None;
      if wanted && o.Some? {
        AddRef(o.value);
        out := o;
      }
      if o.Some? {
        Release(o.value);
      }
    }

    method PassOnBoth(wantPort: bool, wantMiniport: bool, port: Option<nat>, miniport: Option<nat>)
      returns (outPort: Option<nat>, outMiniport: Option<nat>)
      requires (port.Some? ==> port.value < |refs|) && (miniport.Some? ==> miniport.value < |refs|)
      modifies this`refs
      ensures outPort == (if wantPort then port else None) && outMiniport == (if wantMiniport then miniport else None)
      ensures |refs| == |old(refs)|
      ensures forall x: nat :: x < |refs| ==>
        Outside(x) == old(Outside(x)) + One(outPort, x) - One(port, x) + One(outMiniport, x) - One(miniport, x)
    {
      outPort := PassOn(wantPort, port);
      outMiniport := PassOn(wantMiniport, miniport);
    }

    /** Both subdevices, found or installed; `middle` is the cache in between. */
    method FindBoth(topoName: string, waveName: string, topo: Answers, wave: Answers)
      returns (port: Option<nat>, miniport: Option<nat>, topoCreated: bool,
               wavePort: Option<nat>, waveMiniport: Option<nat>, waveCreated: bool, waveOk: bool, ghost middle: seq<Record>)
      requires Known() && Distinct(cache)
      modifies this
      ensures Known() && |old(refs)| <= |refs| && Distinct(cache)
      ensures topoCreated == !old(Has(cache, topoName)) && waveCreated == !Has(middle, waveName)
      ensures waveCreated == !old(Found(cache, waveName, topoName, topo))
      ensures middle == old(cache) || (topoCreated && port.Some? && Extends(old(cache), middle, topoName))
      ensures cache == middle || (waveCreated && wavePort.Some? && Extends(middle, cache, waveName))
      ensures port.Some? == miniport.Some? == (!topoCreated || topo.install)
      ensures wavePort.Some? == waveMiniport.Some? == (!waveCreated || wave.install)
      ensures waveOk == (!waveCreated || (wave.install && wave.record))
      ensures port.Some? ==> port.value < |refs| && miniport.value < |refs|
      ensures wavePort.Some? ==> wavePort.value < |refs| && waveMiniport.value < |refs|
      ensures !topoCreated || (topo.install && topo.record) ==> Recorded(cache, topoName, port, miniport)
      ensures waveOk ==> Recorded(cache, waveName, wavePort, waveMiniport)
      ensures forall x: nat :: x < |refs| ==>
        Outside(x) == (if x < |old(refs)| then old(Outside(x)) else 0)
                      + One(port, x) + One(miniport, x) + One(wavePort, x) + One(waveMiniport, x)
    {
      var topoOk;
      port, miniport, topoCreated, topoOk := FindOrInstall(topoName, topo);
      middle := cache;
      wavePort, waveMiniport, waveCreated, waveOk := FindOrInstall(waveName, wave);
      if topoOk {
        RecordedStays(middle, cache, topoName, port, miniport);
      }
      StillDistinct(old(cache), middle, topoName);
      StillDistinct(middle, cache, waveName);
    }

    /** Whatever fails: outside the cache, each object's count changes by exactly the references
        returned; what is returned is what the cache has; a failed call leaves the cache as it was;
        the names stay distinct. */
    method InstallEndpointFilters(topoName: string, waveName: string, topo: Answers, wave: Answers, connects: bool,
                                  wanted: Wanted)
      returns (ok: bool, outTopo: Option<nat>, outWave: Option<nat>, outMiniTopo: Option<nat>, outMiniWave: Option<nat>)
      requires Known() && Distinct(cache)
      modifies this
      ensures Known() && Distinct(cache) && |old(refs)| <= |refs|
      ensures forall x: nat :: x < |refs| ==>
        Outside(x) == (if x < |old(refs)| then old(Outside(x)) else 0)
                      + One(outTopo, x) + One(outWave, x) + One(outMiniTopo, x) + One(outMiniWave, x)
      ensures ok == old(Succeeds(cache, topoName, waveName, topo, wave, connects))
      ensures !ok ==> cache == old(cache) && outTopo == outWave == outMiniTopo == outMiniWave == None
      ensures old(cache) <= cache && |cache| <= |old(cache)| + 2
      ensures ok && (old(Has(cache, topoName)) || (topo.install && topo.record)) ==>
        HandedOut(cache, topoName, wanted.topology, wanted.miniTopology, outTopo, outMiniTopo)
      ensures ok && (old(Has(cache, waveName)) || (wave.install && wave.record)) ==>
        HandedOut(cache, waveName, wanted.wave, wanted.miniWave, outWave, outMiniWave)
      ensures ok ==> outWave.Some? == wanted.wave && outMiniWave.Some? == wanted.miniWave
      ensures ok ==> outTopo.Some? == (wanted.topology && (old(Has(cache, topoName)) || topo.install))
      ensures ok ==> outMiniTopo.Some? == (wanted.miniTopology && (old(Has(cache, topoName)) || topo.install))
    {
      var unknownTopology, unknownMiniTopo, unknownWave, unknownMiniWave;
      ok, unknownTopology, unknownMiniTopo, unknownWave, unknownMiniWave := Settle(topoName, waveName, topo, wave, connects);
      var out := if ok then wanted else Wanted(false, false, false, false);
      outTopo, outMiniTopo, outWave, outMiniWave :=
        PassOnAll(out, unknownTopology, unknownMiniTopo, unknownWave, unknownMiniWave);
      HandsOut(cache, topoName, out.topology, out.miniTopology, unknownTopology, unknownMiniTopo);
      HandsOut(cache, waveName, out.wave, out.miniWave, unknownWave, unknownMiniWave);
    }

    /** Both subdevices are found or installed and connected, or the call's traces are removed. The
        local pointers still hold their references. */
    method Settle(topoName: string, waveName: string, topo: Answers, wave: Answers, connects: bool)
      returns (ok: bool, port: Option<nat>, miniport: Option<nat>, wavePort: Option<nat>, waveMiniport: Option<nat>)
      requires Known() && Distinct(cache)
      modifies this
      ensures Known() && Distinct(cache) && |old(refs)| <= |refs|
      ensures forall x: nat :: x < |refs| ==>
        Outside(x) == (if x < |old(refs)| then old(Outside(x)) else 0)
                      + One(port, x) + One(miniport, x) + One(wavePort, x) + One(waveMiniport, x)
      ensures !ok ==> cache == old(cache)
      ensures old(cache) <= cache && |cache| <= |old(cache)| + 2
      ensures port.Some? == miniport.Some? == (old(Has(cache, topoName)) || topo.install)
      ensures wavePort.Some? == waveMiniport.Some? && (ok ==> wavePort.Some?)
      ensures ok == old(Succeeds(cache, topoName, waveName, topo, wave, connects))
      ensures port.Some? ==> port.value < |refs| && miniport.value < |refs|
      ensures wavePort.Some? ==> wavePort.value < |refs| && waveMiniport.value < |refs|
      ensures ok && (old(Has(cache, topoName)) || (topo.install && topo.record)) ==> Recorded(cache, topoName, port, miniport)
      ensures ok && (old(Has(cache, waveName)) || (wave.install && wave.record)) ==> Recorded(cache, waveName, wavePort, waveMiniport)
    {
      var topologyCreated, waveCreated;
      ghost var middle;
      port, miniport, topologyCreated, wavePort, waveMiniport, waveCreated, ok, middle := FindBoth(topoName, waveName, topo, wave);
      if port.Some? && wavePort.Some? {
        ok := connects;
      }
      if !ok {
        CleanUp(topoName, waveName, topologyCreated && port.Some?, waveCreated && wavePort.Some?, old(cache), middle);
      }
    }

    method PassOnAll(wanted: Wanted, topo: Option<nat>, miniTopo: Option<nat>, wave: Option<nat>, miniWave: Option<nat>)
      returns (outTopo: Option<nat>, outMiniTopo: Option<nat>, outWave: Option<nat>, outMiniWave: Option<nat>)
      requires (topo.Some? ==> topo.value < |refs|) && (miniTopo.Some? ==> miniTopo.value < |refs|)
      requires (wave.Some? ==> wave.value < |refs|) && (miniWave.Some? ==> miniWave.value < |refs|)
      modifies this`refs
      ensures outTopo == (if wanted.topology then topo else None) && outMiniTopo == (if wanted.miniTopology then miniTopo else None)
      ensures outWave == (if wanted.wave then wave else None) && outMiniWave == (if wanted.miniWave then miniWave else None)
      ensures |refs| == |old(refs)|
      ensures forall x: nat :: x < |refs| ==>
        Outside(x) == old(Outside(x)) - One(topo, x) - One(miniTopo, x) - One(wave, x) - One(miniWave, x)
                      + One(outTopo, x) + One(outWave, x) + One(outMiniTopo, x) + One(outMiniWave, x)
    {
      outTopo, outMiniTopo := PassOnBoth(wanted.topology, wanted.miniTopology, topo, miniTopo);
      outWave, outMiniWave := PassOnBoth(wanted.wave, wanted.miniWave, wave, miniWave);
    }

    /** The error path: what this call has put into the cache is taken out again. */
    method CleanUp(topoName: string, waveName: string, topo: bool, wave: bool, ghost before: seq<Record>, ghost middle: seq<Record>)
      requires Known()
      requires middle == before || (topo && Extends(before, middle, topoName))
      requires cache == middle || (wave && Extends(middle, cache, waveName))
      requires topo ==> !Has(before, topoName)
      requires wave ==> !Has(middle, waveName)
      modifies this
      ensures Known() && |refs| == |old(refs)| && cache == before
      ensures forall x: nat :: x < |refs| ==> Outside(x) == old(Outside(x))
    {
      CleanUpCases(before, middle, cache, topoName, waveName, topo, wave);
      if topo {
        RemoveCachedSubdevice(topoName);
      }
      if wave {
        RemoveCachedSubdevice(waveName);
      }
    }

    /** The wave filter goes first, then the topology filter. */
    method RemoveEndpointFilters(topoName: string, waveName: string)
      requires Known() && Distinct(cache)
      modifies this
      ensures Known() && Distinct(cache) && |refs| == |old(refs)|
      ensures cache == Removed(Removed(old(cache), waveName), topoName)
      ensures forall x: nat :: x < |refs| ==> Outside(x) == old(Outside(x))
    {
      RemovedDistinct(cache, waveName);
      RemoveCachedSubdevice(waveName);
      RemovedDistinct(cache, topoName);
      RemoveCachedSubdevice(topoName);
    }
  }

  /** One record of that name was appended. */
  ghost predicate Extends(before: seq<Record>, after: seq<Record>, name: string) {
    |after| == |before| + 1 && after == before + [after[|before|]] && after[|before|].name == name
  }

  lemma {:induction false} NoRefs(cache: seq<Record>, x: nat)
    requires forall i :: 0 <= i < |cache| ==> cache[i].port < x && cache[i].miniport < x
    ensures CacheRefs(cache, x) == 0
  {
    if cache != [] {
      NoRefs(cache[1..], x);
    }
  }

  /** A record is only added under a name the cache does not have. */
  lemma StillDistinct(before: seq<Record>, after: seq<Record>, name: string)
    requires Distinct(before) && (after == before || (Extends(before, after, name) && !Has(before, name)))
    ensures Distinct(after) && before <= after
  {
  }

  /** Under a name it has not, a cache stays distinct; under one it has, it would not. */
  lemma AppendDistinctIff(cache: seq<Record>, r: Record)
    requires Distinct(cache)
    ensures Distinct(cache + [r]) <==> !Has(cache, r.name)
  {
    if Has(cache, r.name) {
      var i := Position(cache, r.name);
      assert (cache + [r])[i].name == (cache + [r])[|cache|].name;
    }
  }

  lemma RemovedDistinct(cache: seq<Record>, name: string)
    requires Distinct(cache)
    ensures Distinct(Removed(cache, name)) && !Has(Removed(cache, name), name)
  {
    var i := Position(cache, name);
    if i < |cache| {
      var c := Removed(cache, name);
      forall k | 0 <= k < |c| ensures c[k].name != name && c[k] == cache[if k < i then k else k + 1] {
        assert c[k] == cache[if k < i then k else k + 1];
      }
    }
  }

  lemma CleanUpCases(before: seq<Record>, middle: seq<Record>, after: seq<Record>, topoName: string, waveName: string,
                     topo: bool, wave: bool)
    requires middle == before || (topo && Extends(before, middle, topoName))
    requires after == middle || (wave && Extends(middle, after, waveName))
    requires topo ==> !Has(before, topoName)
    requires wave ==> !Has(middle, waveName)
    ensures var c := if topo then Removed(after, topoName) else after;
      (if wave then Removed(c, waveName) else c) == before
  {
    var c := if topo then Removed(after, topoName) else after;
    if middle != before && after != middle {
      RemoveFirstOfTwo(before, middle[|before|], after[|middle|]);
      PositionAppend(before, middle[|before|], waveName);
      RemoveAppended(before, after[|middle|]);
    } else if middle != before {
      RemoveAppended(before, middle[|before|]);
      PositionAppend(before, middle[|before|], waveName);
    } else if after != middle {
      PositionAppend(before, after[|middle|], topoName);
      RemoveAppended(before, after[|middle|]);
    }
  }
}
