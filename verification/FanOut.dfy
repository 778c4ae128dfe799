/**
 Distribution of received frames (radio_service.cpp:11-33, 53-60, network_receiver.cpp:7-25). The vector of
 broadcasters is filled with copies of one shared pointer, so all its slots are the same object.
 */
module FanOut {
  import opened Prelude
  import opened Packing

  function Copies<T>(x: T, n: nat): (r: seq<T>)
    ensures |r| == n && forall k :: 0 <= k < n ==> r[k] == x
  {
    seq(n, _ => x)
  }

  function Count<T(==)>(xs: seq<T>, x: T): nat {
    if xs == [] then 0 else Count(xs[..|xs| - 1], x) + if xs[|xs| - 1] == x then 1 else 0
  }

  /** A receiver behind a weak pointer: once it is gone, lock() yields nothing. */
  class Listener {
    var alive: bool
    var received: seq<Frame>

    constructor ()
      ensures alive && received == []
    {
      alive, received := true, [];
    }

    method OnReceive(frame: Frame)
      modifies this`received
      ensures received == old(received) + [frame]
    {
      received := received + [frame];
    }
  }

  class Broadcaster {
    var listeners: seq<Listener>

    constructor ()
      ensures listeners == []
    {
      listeners := [];
    }

    /** network_broadcast_receiver::attach_listener */
    method AttachListener(listener: Listener?)
      modifies this
      ensures listeners == old(listeners) + if listener == null then [] else [listener]
    {
      if listener != null {
        listeners := listeners + [listener];
      }
    }

    /** network_broadcast_receiver::on_receive: every live listener is called once for each of its entries. */
    method OnReceive(frame: Frame)
      modifies set l | l in listeners :: l`received
      ensures forall l <- listeners ::
                l.received == old(l.received) + Copies(frame, if l.alive then Count(listeners, l) else 0)
    {
      for i := 0 to |listeners|
        invariant forall l <- listeners ::
                    l.received == old(l.received) + Copies(frame, if l.alive then Count(listeners[..i], l) else 0)
      {
        assert listeners[..i + 1][..i] == listeners[..i];
        var listener := listeners[i];
        if listener.alive {
          listener.OnReceive(frame);
        }
      }
      assert listeners[..|listeners|] == listeners;
    }
  }

  class RadioService {
    const broadcasters: seq<Broadcaster>
    var idBases: seq<nat>

    /** radio_service::radio_service as written, for `radios` radios. */
    constructor (radios: nat)
      ensures |broadcasters| == radios
      ensures forall i, j :: 0 <= i < radios && 0 <= j < radios ==> broadcasters[i] == broadcasters[j]
      ensures forall i :: 0 <= i < radios ==> fresh(broadcasters[i]) && broadcasters[i].listeners == []
      ensures idBases == seq(radios, i => i + 1)
    {
      var shared := new Broadcaster();
      broadcasters := Copies(shared, radios);
      idBases := [];
      new;
      for i := 0 to radios
        invariant idBases == seq(i, j => j + 1)
        invariant shared.listeners == []
      {
        idBases := idBases + [i + 1];
      }
    }

    /** A vector with an object of its own for every radio. */
    constructor Distinct(radios: nat)
      ensures |broadcasters| == radios
      ensures forall i, j :: 0 <= i < j < radios ==> broadcasters[i] != broadcasters[j]
      ensures forall i :: 0 <= i < radios ==> fresh(broadcasters[i]) && broadcasters[i].listeners == []
    {
      var bs: seq<Broadcaster> := [];
      for i := 0 to radios
        invariant |bs| == i
        invariant forall j, k :: 0 <= j < k < i ==> bs[j] != bs[k]
        invariant forall j :: 0 <= j < i ==> fresh(bs[j]) && bs[j].listeners == []
      {
        var b := new Broadcaster();
        assert forall j :: 0 <= j < i ==> bs[j] != b;
        bs := bs + [b];
      }
      broadcasters := bs;
      idBases := [];
    }

    /** radio_service::attach_listener: an object gets one entry for every slot it fills. */
    method AttachListener(listener: Listener?)
      modifies broadcasters
      ensures forall b <- broadcasters ::
                b.listeners == old(b.listeners) + if listener == null then [] else Copies(listener, Count(broadcasters, b))
    {
      if listener != null {
        for i := 0 to |broadcasters|
          invariant forall b <- broadcasters ::
                      b.listeners == old(b.listeners) + Copies(listener, Count(broadcasters[..i], b))
        {
          assert broadcasters[..i + 1][..i] == broadcasters[..i];
          broadcasters[i].AttachListener(listener);
        }
        assert broadcasters[..|broadcasters|] == broadcasters;
      }
    }
  }

  lemma {:induction false} CountCopies<T>(x: T, n: nat)
    ensures Count(Copies(x, n), x) == n
  {
    if n > 0 {
      assert Copies(x, n)[..n - 1] == Copies(x, n - 1);
      CountCopies(x, n - 1);
    }
  }

  lemma {:induction false} CountAtLeast<T>(xs: seq<T>, x: T)
    ensures Count(xs, x) > 0 <==> x in xs
    ensures (exists i, j :: 0 <= i < j < |xs| && xs[i] == x && xs[j] == x) <==> Count(xs, x) > 1
    decreases |xs|
  {
    if xs != [] {
      var n := |xs| - 1;
      CountAtLeast(xs[..n], x);
      if Count(xs, x) > 1 {
        if Count(xs[..n], x) > 1 {
          var i, j :| 0 <= i < j < n && xs[..n][i] == x && xs[..n][j] == x;
          assert xs[i] == x && xs[j] == x;
        } else {
          var i :| 0 <= i < n && xs[..n][i] == x;
          assert xs[i] == x && xs[n] == x;
        }
      }
      if i, j :| 0 <= i < j < |xs| && xs[i] == x && xs[j] == x {
        assert xs[..n][i] == x;
        if j < n {
          assert xs[..n][j] == x;
        }
      }
    }
  }

  /** One attach serves every radio exactly once if and only if the slots are pairwise different objects. */
  lemma OncePerRadio<T>(slots: seq<T>)
    ensures (forall i :: 0 <= i < |slots| ==> Count(slots, slots[i]) == 1) <==>
            (forall i, j :: 0 <= i < j < |slots| ==> slots[i] != slots[j])
  {
    forall i | 0 <= i < |slots|
      ensures Count(slots, slots[i]) == 1 <==>
              !exists k, j :: 0 <= k < j < |slots| && slots[k] == slots[i] && slots[j] == slots[i]
    {
      CountAtLeast(slots, slots[i]);
    }
    if forall i :: 0 <= i < |slots| ==> Count(slots, slots[i]) == 1 {
      forall i, j | 0 <= i < j < |slots|
        ensures slots[i] != slots[j]
      {
        assert Count(slots, slots[i]) == 1;
      }
    }
  }

  /** With the shared object and k radios, every slot counts k: as meant exactly for one radio. */
  lemma SharedSlotCounts<T>(slots: seq<T>, i: nat)
    requires i < |slots| && forall a, b :: 0 <= a < |slots| && 0 <= b < |slots| ==> slots[a] == slots[b]
    ensures Count(slots, slots[i]) == |slots|
  {
    assert slots == Copies(slots[i], |slots|);
    CountCopies(slots[i], |slots|);
  }

  /** The service as written: a listener attached once is called once per radio for every received frame. */
  method SharedFanOut(radios: nat, radio: nat, frame: Frame) returns (listener: Listener)
    requires radio < radios
    ensures fresh(listener) && listener.received == Copies(frame, radios)
  {
    var service := new RadioService(radios);
    listener := new Listener();
    assert forall b <- service.broadcasters :: fresh(b) && b.listeners == [];
    service.AttachListener(listener);
    var b := service.broadcasters[radio];
    SharedSlotCounts(service.broadcasters, radio);
    CountCopies(listener, radios);
    assert b.listeners == Copies(listener, radios);
    assert listener == b.listeners[0];
    b.OnReceive(frame);
  }

  /** With distinct broadcasters it is called exactly once, for any number of radios. */
  method DistinctFanOut(radios: nat, radio: nat, frame: Frame) returns (listener: Listener)
    requires radio < radios
    ensures fresh(listener) && listener.received == [frame]
  {
    var service := new RadioService.Distinct(radios);
    listener := new Listener();
    assert forall b <- service.broadcasters :: fresh(b) && b.listeners == [];
    service.AttachListener(listener);
    var b := service.broadcasters[radio];
    OncePerRadio(service.broadcasters);
    assert Count(service.broadcasters, b) == 1;
    CountCopies(listener, 1);
    assert b.listeners == Copies(listener, 1);
    assert listener == b.listeners[0];
    b.OnReceive(frame);
  }
}
