/** The vsock frame stream from the enclave to its parent: the sender in aws-nitro/probe-nitro.sh and the parent's
    listener.py. */
module FrameStream {
  import opened Octets
  import opened Sockets

  datatype Frame = Frame(name: string, data: Bytes)

  /** `str.encode`, `bytes.decode`, which may raise, and whether a file of this name can be opened and written. */
  datatype Host = Host(encode: string -> Bytes, decode: Bytes -> Option<string>, writable: string -> bool)

  ghost predicate IsHost(host: Host) {
    forall s :: host.decode(host.encode(s)) == Some(s)
  }

  // ---- The sender ----

  function FrameBytes(host: Host, f: Frame): Bytes {
    var name := host.encode(f.name);
    BeBytes(|name|, 1) + name + (BeBytes(|f.data|, 4) + f.data)
  }

  function Wire(host: Host, frames: seq<Frame>): Bytes {
    if |frames| == 0 then [] else FrameBytes(host, frames[0]) + Wire(host, frames[1..])
  }

  /** What `struct.pack` accepts. */
  predicate Sendable(host: Host, f: Frame) {
    |host.encode(f.name)| < 0x100 && |f.data| < 0x1_0000_0000
  }

  // ---- The listener ----

  /** The frames received, whether an undecodable or unwritable name ended the loop, and the bytes left unread. */
  datatype Heard = Heard(frames: seq<Frame>, failed: bool, rest: Bytes)

  /** What a byte stream means to the listener; `None` while it waits for more. */
  function Hear(host: Host, s: Bytes): Option<Heard>
    decreases |s|
  {
    var (nameBytes, s1) :- Counted(s, 1);
    if host.decode(nameBytes).None? then Some(Heard([], true, s1)) else
      var name := host.decode(nameBytes).value;
      var (data, s2) :- Counted(s1, 4);
      if name == "done" then Some(Heard([], false, s2)) else
      if !host.writable(name) then Some(Heard([], true, s2)) else
        assert |s2| < |s|;
        var h :- Hear(host, s2);
        Some(h.(frames := [Frame(name, data)] + h.frames))
  }

  /** `open(name, "wb").write(data)` for each frame in turn. */
  function Stored(files: map<string, Bytes>, frames: seq<Frame>): map<string, Bytes>
    decreases frames
  {
    if |frames| == 0 then files else Stored(files[frames[0].name := frames[0].data], frames[1..])
  }

  /** An entry of the listener's report: `[name, len(data)]`, or the error that ended the loop. */
  datatype Entry = Received(name: string, len: nat) | Error

  function Listing(frames: seq<Frame>): seq<Entry> {
    if |frames| == 0 then [] else [Received(frames[0].name, |frames[0].data|)] + Listing(frames[1..])
  }

  /** The loop invariant: what is still to be heard completes the outcome `h0` of the whole stream. */
  ghost predicate Remaining(host: Host, incoming: Bytes, h0: Heard, files: map<string, Bytes>,
                            files0: map<string, Bytes>, got: seq<Entry>, got0: seq<Entry>) {
    && Hear(host, incoming).Some?
    && var h := Hear(host, incoming).value;
    && h.failed == h0.failed && h.rest == h0.rest
    && Stored(files, h.frames) == Stored(files0, h0.frames)
    && got + Listing(h.frames) == got0 + Listing(h0.frames)
  }

  lemma StartHearing(host: Host, incoming: Bytes, files: map<string, Bytes>, got: seq<Entry>)
    requires Hear(host, incoming).Some?
    ensures Remaining(host, incoming, Hear(host, incoming).value, files, files, got, got)
  {
  }

  /** The loop is over, with the outcome of the whole stream. */
  ghost predicate Over(failed: bool, rest: Bytes, h0: Heard, files: map<string, Bytes>, files0: map<string, Bytes>,
                       got: seq<Entry>, got0: seq<Entry>) {
    && failed == h0.failed && rest == h0.rest
    && files == Stored(files0, h0.frames)
    && got == got0 + Listing(h0.frames)
  }

  /** One turn of the loop: it has the bytes it waits for, and then it is over or goes on with one more frame. */
  lemma FrameHeard(host: Host, incoming: Bytes, h0: Heard, files: map<string, Bytes>, files0: map<string, Bytes>,
                   got: seq<Entry>, got0: seq<Entry>)
    requires Remaining(host, incoming, h0, files, files0, got, got0)
    ensures Counted(incoming, 1).Some?
    ensures var (nameBytes, s1) := Counted(incoming, 1).value;
            var name := host.decode(nameBytes);
            if name.None? then Over(true, s1, h0, files, files0, got, got0) else
            && Counted(s1, 4).Some?
            && var (data, s2) := Counted(s1, 4).value;
            if name.value == "done" then Over(false, s2, h0, files, files0, got, got0)
            else if !host.writable(name.value) then Over(true, s2, h0, files, files0, got, got0)
            else |s2| < |incoming|
                 && Remaining(host, s2, h0, files[name.value := data], files0,
                              got + [Received(name.value, |data|)], got0)
  {
    assert got + [] == got;
    var (nameBytes, s1) := Counted(incoming, 1).value;
    var name := host.decode(nameBytes);
    if name.Some? && name.value != "done" && host.writable(name.value) {
      var (data, s2) := Counted(s1, 4).value;
      var more := Hear(host, s2).value.frames;
      assert ([Frame(name.value, data)] + more)[1..] == more;
      Assoc(got, [Received(name.value, |data|)], Listing(more));
    }
  }

  class Listener {
    var files: map<string, Bytes>
    var got: seq<Entry>

    constructor ()
      ensures files == map[] && got == []
    {
      files, got := map[], [];
    }

    /** Send the nonce, then receive frames until "done". */
    method Listen(c: Socket, host: Host, nonce: Bytes) returns (failed: bool)
      requires |nonce| < 0x1_0000_0000
      requires Hear(host, c.incoming).Some?
      modifies this, c
      ensures var h := Hear(host, old(c.incoming)).value;
              && got == old(got) + Listing(h.frames) + (if h.failed then [Error] else [])
              && files == Stored(old(files), h.frames)
              && failed == h.failed
              && c.incoming == h.rest
      ensures c.outgoing == old(c.outgoing) + (BeBytes(|nonce|, 4) + nonce)
    {
      hide BeBytes, Stored, Listing, Hear, Remaining, Counted;
      c.SendAll(BeBytes(|nonce|, 4) + nonce);
      ghost var h0 := Hear(host, c.incoming).value;
      StartHearing(host, c.incoming, files, got);
      while true
        invariant Remaining(host, c.incoming, h0, files, old(files), got, old(got))
        invariant c.outgoing == old(c.outgoing) + (BeBytes(|nonce|, 4) + nonce)
        decreases |c.incoming|
      {
        FrameHeard(host, c.incoming, h0, files, old(files), got, old(got));
        var nameBytes := c.RecvCounted(1);
        var decoded := host.decode(nameBytes);
        if decoded.None? {
          got := got + [Error];
          return true;
        }
        var name := decoded.value;
        var data := c.RecvCounted(4);
        if name == "done" {
          assert got + [] == got;
          return false;
        }
        if !host.writable(name) {
          got := got + [Error];
          return true;
        }
        files := files[name := data];
        got := got + [Received(name, |data|)];
      }
    }
  }

  // ---- The listener recovers what was sent ----

  lemma {:induction false} HearWire(host: Host, frames: seq<Frame>, last: Bytes, rest: Bytes)
    requires IsHost(host) && |host.encode("done")| < 0x100 && |last| < 0x1_0000_0000
    requires forall i :: 0 <= i < |frames| ==>
               Sendable(host, frames[i]) && frames[i].name != "done" && host.writable(frames[i].name)
    ensures Hear(host, Wire(host, frames) + (FrameBytes(host, Frame("done", last)) + rest))
            == Some(Heard(frames, false, rest))
    decreases |frames|
  {
    hide FrameBytes, Counted;
    var end := FrameBytes(host, Frame("done", last)) + rest;
    if frames == [] {
      assert Wire(host, frames) + end == end;
      FrameRead(host, Frame("done", last), rest);
    } else {
      var f := frames[0];
      HearWire(host, frames[1..], last, rest);
      Assoc(FrameBytes(host, f), Wire(host, frames[1..]), end);
      FrameRead(host, f, Wire(host, frames[1..]) + end);
      assert [Frame(f.name, f.data)] + frames[1..] == frames;
    }
  }

  /** One frame read off the front of the stream. */
  lemma FrameRead(host: Host, f: Frame, rest: Bytes)
    requires Sendable(host, f)
    ensures var s1 := BeBytes(|f.data|, 4) + f.data + rest;
            && Counted(FrameBytes(host, f) + rest, 1) == Some((host.encode(f.name), s1))
            && Counted(s1, 4) == Some((f.data, rest))
  {
    Powers();
    var name := host.encode(f.name);
    var field := BeBytes(|f.data|, 4) + f.data;
    Assoc(BeBytes(|name|, 1) + name, field, rest);
    CountedRoundTrip(name, 1, field + rest);
    CountedRoundTrip(f.data, 4, rest);
  }

  /** Every frame reaches the parent's files: a name holds the data of the last frame sent under it. */
  lemma {:induction false} StoredLast(files: map<string, Bytes>, frames: seq<Frame>, i: nat)
    requires i < |frames|
    requires forall j :: i < j < |frames| ==> frames[j].name != frames[i].name
    ensures frames[i].name in Stored(files, frames)
    ensures Stored(files, frames)[frames[i].name] == frames[i].data
    decreases frames
  {
    var files' := files[frames[0].name := frames[0].data];
    if i == 0 {
      StoredOthers(files', frames[1..], frames[0].name);
    } else {
      StoredLast(files', frames[1..], i - 1);
    }
  }

  lemma {:induction false} StoredOthers(files: map<string, Bytes>, frames: seq<Frame>, name: string)
    requires name in files && forall j :: 0 <= j < |frames| ==> frames[j].name != name
    ensures name in Stored(files, frames) && Stored(files, frames)[name] == files[name]
    decreases frames
  {
    if frames == [] {
    } else {
      StoredOthers(files[frames[0].name := frames[0].data], frames[1..], name);
    }
  }
}
