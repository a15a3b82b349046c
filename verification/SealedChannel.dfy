/** The sealed transport: one key and one counter for each direction of a connection. */
module SealedChannel {
  import opened Wrappers
  import opened WalRecords

  datatype Direction = ClientToServer | ServerToClient

  /** The two keys derived from the handshake secret. */
  datatype ChannelKey = ChannelKey(secret: nat, direction: Direction)

  /** An ideal sealed frame: it opens only under its own key and counter. */
  datatype Frame = Frame(key: ChannelKey, counter: nat, plain: Bytes)

  function OpenFrame(key: ChannelKey, counter: nat, f: Frame): Option<Bytes> {
    if f.key == key && f.counter == counter then Some(f.plain) else None
  }

  function Outgoing(client: bool): Direction {
    if client then ClientToServer else ServerToClient
  }

  class Channel {
    const sendKey: ChannelKey
    const recvKey: ChannelKey
    var sendCounter: nat
    var recvCounter: nat

    constructor (secret: nat, client: bool)
      ensures sendKey == ChannelKey(secret, Outgoing(client)) && recvKey == ChannelKey(secret, Outgoing(!client))
      ensures sendCounter == 0 && recvCounter == 0
    {
      sendKey := ChannelKey(secret, Outgoing(client));
      recvKey := ChannelKey(secret, Outgoing(!client));
      sendCounter := 0;
      recvCounter := 0;
    }

    method Send(plain: Bytes) returns (f: Frame)
      modifies this`sendCounter
      ensures f == Frame(sendKey, old(sendCounter), plain) && sendCounter == old(sendCounter) + 1
    {
      f := Frame(sendKey, sendCounter, plain);
      sendCounter := sendCounter + 1;
    }

    /** The next plaintext, or none, and then the counter stays. */
    method Receive(f: Frame) returns (plain: Option<Bytes>)
      modifies this`recvCounter
      ensures plain == OpenFrame(recvKey, old(recvCounter), f)
      ensures recvCounter == old(recvCounter) + if plain.Some? then 1 else 0
    {
      plain := OpenFrame(recvKey, recvCounter, f);
      if plain.Some? {
        recvCounter := recvCounter + 1;
      }
    }
  }

  /** What a reader takes from a stream of frames until the first that does not open. */
  function Accepted(key: ChannelKey, counter: nat, frames: seq<Frame>): seq<Bytes>
    decreases |frames|
  {
    if frames == [] || OpenFrame(key, counter, frames[0]).None? then []
    else [frames[0].plain] + Accepted(key, counter + 1, frames[1..])
  }

  /** A frame the two ends have sent in this connection, or one under another key. */
  ghost predicate Genuine(f: Frame, secret: nat, sent: map<Direction, seq<Bytes>>) {
    f.key.secret == secret ==> f.key.direction in sent && f.counter < |sent[f.key.direction]| && f.plain == sent[f.key.direction][f.counter]
  }

  /**
   Whatever the network drops, repeats, reorders, reflects or invents, a reader has taken a
   prefix of what its peer has sent, in order.
   */
  lemma {:induction false} AcceptedIsPrefix(secret: nat, d: Direction, counter: nat, frames: seq<Frame>, sent: map<Direction, seq<Bytes>>)
    requires d in sent && counter <= |sent[d]| && forall i :: 0 <= i < |frames| ==> Genuine(frames[i], secret, sent)
    ensures Accepted(ChannelKey(secret, d), counter, frames) <= sent[d][counter..]
    decreases |frames|
  {
    if frames != [] && OpenFrame(ChannelKey(secret, d), counter, frames[0]).Some? {
      assert Genuine(frames[0], secret, sent);
      AcceptedIsPrefix(secret, d, counter + 1, frames[1..], sent);
      assert sent[d][counter..] == [sent[d][counter]] + sent[d][counter + 1..];
    }
  }

  function Sealed(key: ChannelKey, counter: nat, plains: seq<Bytes>): (frames: seq<Frame>)
    ensures |frames| == |plains|
  {
    seq(|plains|, i requires 0 <= i < |plains| => Frame(key, counter + i, plains[i]))
  }

  /** Frames delivered in order are all taken. */
  lemma {:induction false} InOrderDelivers(key: ChannelKey, counter: nat, plains: seq<Bytes>)
    ensures Accepted(key, counter, Sealed(key, counter, plains)) == plains
    decreases |plains|
  {
    if plains != [] {
      InOrderDelivers(key, counter + 1, plains[1..]);
      assert Sealed(key, counter, plains)[1..] == Sealed(key, counter + 1, plains[1..]);
    }
  }
}
