/** What one call of `ofApp::update` does to the sample stores, stated on
    values: the stores as a map from identifier to sample sequence, and the
    received message as the sequence of triples read from it. */
module Ingestion {
  import opened Numeric
  import opened Graphed

  /** Every variable's samples, keyed by identifier. */
  type Windows = map<Uint32, seq<Sample>>

  /** The C++ conversion `(unsigned int) gid` is defined only when the
      truncated value fits an `unsigned int`. */
  predicate HasChannelId(tr: Triple) {
    -1.0 < tr.gid < 4294967296.0
  }

  predicate AllHaveChannelIds(message: seq<Triple>) {
    forall i :: 0 <= i < |message| ==> HasChannelId(message[i])
  }

  /** The identifier a triple is filed under: its gid truncated toward zero. */
  function ChannelId(tr: Triple): (id: Uint32)
    requires HasChannelId(tr)
    ensures 0.0 <= tr.gid ==> id as real <= tr.gid < id as real + 1.0
    ensures tr.gid < 0.0 ==> id == 0
  {
    TruncateTowardZero(tr.gid)
  }

  function SampleOf(tr: Triple): Sample {
    Sample(tr.t, tr.v)
  }

  /** One triple: appended to the back of its variable's samples when its
      identifier is a key; otherwise dropped, and no key is created. */
  function IngestOne(w: Windows, tr: Triple): (w': Windows)
    requires HasChannelId(tr)
    ensures w'.Keys == w.Keys
    ensures ChannelId(tr) in w ==> w'[ChannelId(tr)] == w[ChannelId(tr)] + [SampleOf(tr)]
    ensures forall k :: k in w && k != ChannelId(tr) ==> w'[k] == w[k]
    ensures ChannelId(tr) !in w ==> w' == w
  {
    var id := ChannelId(tr);
    if id in w then w[id := w[id] + [SampleOf(tr)]] else w
  }

  /** A whole message, triple by triple in message order. */
  function Ingested(w: Windows, message: seq<Triple>): (w': Windows)
    requires AllHaveChannelIds(message)
    ensures w'.Keys == w.Keys
    decreases |message|
  {
    if message == [] then w
    else IngestOne(Ingested(w, message[..|message| - 1]), message[|message| - 1])
  }

  /** Reading one more triple of a message: the step the receiving loop takes. */
  lemma IngestedNext(w: Windows, message: seq<Triple>, i: nat)
    requires AllHaveChannelIds(message) && i < |message|
    ensures AllHaveChannelIds(message[..i]) && AllHaveChannelIds(message[..i + 1])
    ensures Ingested(w, message[..i + 1]) == IngestOne(Ingested(w, message[..i]), message[i])
  {
    assert message[..i + 1][..i] == message[..i];
  }

  /** The samples a message carries for identifier k, in message order. */
  function SamplesFor(message: seq<Triple>, k: Uint32): (s: seq<Sample>)
    requires AllHaveChannelIds(message)
    ensures |s| <= |message|
    decreases |message|
  {
    if message == [] then []
    else
      var last := message[|message| - 1];
      SamplesFor(message[..|message| - 1], k) + (if ChannelId(last) == k then [SampleOf(last)] else [])
  }

  /** The whole effect of a message on one variable: its old samples followed
      by exactly the message's samples for its identifier, in message order. */
  lemma {:induction false} IngestedPerChannel(w: Windows, message: seq<Triple>, k: Uint32)
    requires AllHaveChannelIds(message)
    requires k in w
    ensures Ingested(w, message)[k] == w[k] + SamplesFor(message, k)
    decreases |message|
  {
    if message != [] {
      var prefix := message[..|message| - 1];
      IngestedPerChannel(w, prefix, k);
    }
  }

  /** Append-only: each variable's old samples are a prefix of its new ones,
      so no store shrinks and a non-empty store stays non-empty. */
  lemma IngestedOnlyAppends(w: Windows, message: seq<Triple>, k: Uint32)
    requires AllHaveChannelIds(message)
    requires k in w
    ensures |Ingested(w, message)[k]| >= |w[k]|
    ensures Ingested(w, message)[k][..|w[k]|] == w[k]
    ensures |w[k]| > 0 ==> |Ingested(w, message)[k]| > 0
  {
  }

  /** A message none of whose identifiers is a key changes nothing at all. */
  lemma {:induction false} UnknownIdsChangeNothing(w: Windows, message: seq<Triple>)
    requires AllHaveChannelIds(message)
    requires forall i :: 0 <= i < |message| ==> ChannelId(message[i]) !in w
    ensures Ingested(w, message) == w
    decreases |message|
  {
    if message != [] {
      UnknownIdsChangeNothing(w, message[..|message| - 1]);
    }
  }

  /** The samples for k come from k's triples alone: a message without a
      triple for k adds nothing to k. */
  lemma {:induction false} SamplesForAbsentId(message: seq<Triple>, k: Uint32)
    requires AllHaveChannelIds(message)
    requires forall i :: 0 <= i < |message| ==> ChannelId(message[i]) != k
    ensures SamplesFor(message, k) == []
    decreases |message|
  {
    if message != [] {
      SamplesForAbsentId(message[..|message| - 1], k);
    }
  }

  /** Samples keep their message order across a split of the message. */
  lemma {:induction false} SamplesForSplit(m1: seq<Triple>, m2: seq<Triple>, k: Uint32)
    requires AllHaveChannelIds(m1) && AllHaveChannelIds(m2)
    ensures AllHaveChannelIds(m1 + m2)
    ensures SamplesFor(m1 + m2, k) == SamplesFor(m1, k) + SamplesFor(m2, k)
    decreases |m2|
  {
    if m2 != [] {
      var p2 := m2[..|m2| - 1];
      assert (m1 + m2)[..|m1 + m2| - 1] == m1 + p2;
      assert (m1 + m2)[|m1 + m2| - 1] == m2[|m2| - 1];
      SamplesForSplit(m1, p2, k);
    } else {
      assert m1 + m2 == m1;
    }
  }

  /** Receiving two messages one after the other has the same effect as
      receiving their concatenation. */
  lemma {:induction false} IngestedSplit(w: Windows, m1: seq<Triple>, m2: seq<Triple>)
    requires AllHaveChannelIds(m1) && AllHaveChannelIds(m2)
    ensures AllHaveChannelIds(m1 + m2)
    ensures Ingested(Ingested(w, m1), m2) == Ingested(w, m1 + m2)
    decreases |m2|
  {
    if m2 != [] {
      var p2 := m2[..|m2| - 1];
      assert (m1 + m2)[..|m1 + m2| - 1] == m1 + p2;
      assert (m1 + m2)[|m1 + m2| - 1] == m2[|m2| - 1];
      IngestedSplit(w, m1, p2);
    } else {
      assert m1 + m2 == m1;
    }
  }
}
