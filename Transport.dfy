/** A scripted stand-in for the `hid` device handle the driver talks to.
    It logs every frame passed to write() and every feature report sent,
    records the size of every read(n), answers the i-th read(n) with the i-th
    scripted reply cut to at most n bytes (an empty reply once the script is
    used up), and remembers whether it was closed. One further log records
    all of these effects in the order they happened. */
module Transport {
  import opened Frames

  /** One effect on the handle. */
  datatype Event =
    | Wrote(frame: seq<Byte>)     // write(frame)
    | ReadOf(size: nat)           // read(size)
    | Reported(report: seq<Byte>) // send_feature_report(report)
    | Closed                      // close()

  /** The state of the fake handle as a value. The number of reads so far,
      |readSizes|, is the position of the next reply in the script. */
  datatype Hid = Hid(
    written: seq<seq<Byte>>,   // frames passed to write(), oldest first
    features: seq<seq<Byte>>,  // feature reports sent, oldest first
    readSizes: seq<nat>,       // n of every read(n), oldest first
    script: seq<seq<Byte>>,    // the replies the device gives, in order
    closed: bool,
    events: seq<Event>)        // every effect above, oldest first

  /** At most n bytes of s: what read(n) hands back of a longer report. */
  function Take(s: seq<Byte>, n: nat): (t: seq<Byte>)
    ensures |t| <= n && t <= s
    ensures |s| <= n ==> t == s
  {
    if |s| <= n then s else s[..n]
  }

  /** What the i-th read(n) gets back from script q. */
  function ReplyAt(q: seq<seq<Byte>>, i: nat, n: nat): (r: seq<Byte>)
    ensures |r| <= n
    ensures i >= |q| ==> r == []
    ensures i < |q| ==> r <= q[i]
  {
    Take(if i < |q| then q[i] else [], n)
  }

  function AfterWrite(s: Hid, frame: seq<Byte>): Hid {
    s.(written := s.written + [frame], events := s.events + [Wrote(frame)])
  }

  /** What read(n) returns in state s. */
  function NextReply(s: Hid, n: nat): seq<Byte> {
    ReplyAt(s.script, |s.readSizes|, n)
  }

  function AfterRead(s: Hid, n: nat): Hid {
    s.(readSizes := s.readSizes + [n], events := s.events + [ReadOf(n)])
  }

  function AfterFeature(s: Hid, report: seq<Byte>): Hid {
    s.(features := s.features + [report], events := s.events + [Reported(report)])
  }

  function AfterClose(s: Hid): Hid {
    s.(closed := true, events := s.events + [Closed])
  }

  class FakeHid {
    var written: seq<seq<Byte>>
    var features: seq<seq<Byte>>
    var readSizes: seq<nat>
    const script: seq<seq<Byte>>
    var closed: bool
    var events: seq<Event>

    function State(): Hid
      reads this
    {
      Hid(written, features, readSizes, script, closed, events)
    }

    /** An open handle with empty logs that will answer reads with `script`. */
    constructor (script: seq<seq<Byte>>)
      ensures State() == Hid([], [], [], script, false, [])
    {
      written, features, readSizes, closed, events := [], [], [], false, [];
      this.script := script;
    }

    /** hid write(): logs the frame and reports every byte as written. */
    method Write(frame: seq<Byte>) returns (n: int)
      modifies this
      ensures State() == AfterWrite(old(State()), frame)
      ensures n == |frame|
    {
      written := written + [frame];
      events := events + [Wrote(frame)];
      n := |frame|;
    }

    /** hid read(n): the next scripted reply, at most n bytes of it. */
    method Read(n: nat) returns (reply: seq<Byte>)
      modifies this
      ensures reply == NextReply(old(State()), n) && |reply| <= n
      ensures State() == AfterRead(old(State()), n)
    {
      reply := ReplyAt(script, |readSizes|, n);
      readSizes := readSizes + [n];
      events := events + [ReadOf(n)];
    }

    method SendFeatureReport(report: seq<Byte>)
      modifies this
      ensures State() == AfterFeature(old(State()), report)
    {
      features := features + [report];
      events := events + [Reported(report)];
    }

    method Close()
      modifies this
      ensures State() == AfterClose(old(State()))
    {
      closed := true;
      events := events + [Closed];
    }
  }
}
