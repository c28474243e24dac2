/**
  What can be known of a stretch of the stream from the pieces and parity frames that
  have arrived: a packet is complete if all its pieces are there, or if parity rebuilds
  it from others that are complete. No window appears here; the receiver is measured
  against this.
*/
module StreamClosure {
  import opened ByteStrings
  import opened Sequences
  import opened Wire

  /** A stretch of the sender's stream: the packet with number start + k, in the given pieces. */
  datatype Stream = Stream(start: nat, pieces: seq<seq<Bytes>>)

  /** A fragment of a packet, or the packet whole, as it is also sent for rescue and repair. */
  datatype Part = Piece(sequence: nat, piece: nat) | WholeCopy(sequence: nat)

  /** The packets a parity frame covers. */
  datatype Span = Span(first: nat, count: nat)

  /** The pieces that have arrived, and the spans of the parity frames that have. */
  datatype Known = Known(parts: set<Part>, spans: set<Span>)

  function End(x: Stream): nat {
    x.start + |x.pieces|
  }

  predicate ValidStream(x: Stream) {
    && End(x) <= MAX_MEDIA_SEQUENCE
    && forall k :: 0 <= k < |x.pieces| ==> 1 <= |x.pieces[k]| <= MAX_FRAGMENTS
  }

  predicate InStream(x: Stream, s: nat) {
    x.start <= s < End(x)
  }

  function PiecesOf(x: Stream, s: nat): seq<Bytes>
    requires InStream(x, s)
  {
    x.pieces[s - x.start]
  }

  function Whole(x: Stream, s: nat): Bytes
    requires InStream(x, s)
  {
    Concat(PiecesOf(x, s))
  }

  predicate IsPart(x: Stream, part: Part) {
    InStream(x, part.sequence) && (part.Piece? ==> part.piece < |PiecesOf(x, part.sequence)|)
  }

  /** Parity is only ever sent for two packets or more. */
  predicate IsSpan(x: Stream, span: Span) {
    x.start <= span.first && span.first + span.count <= End(x) && span.count >= 2
  }

  predicate InSpan(span: Span, s: nat) {
    span.first <= s < span.first + span.count
  }

  /** Parts and spans of the stream, and no two spans with the same first packet. */
  ghost predicate ValidKnown(x: Stream, known: Known) {
    && (forall part :: part in known.parts ==> IsPart(x, part))
    && (forall span :: span in known.spans ==> IsSpan(x, span))
    && forall a, b :: a in known.spans && b in known.spans && a.first == b.first ==> a == b
  }

  predicate LessKnown(a: Known, b: Known) {
    a.parts <= b.parts && a.spans <= b.spans
  }

  // ---------------------------------------------------------------- complete packets

  predicate AllIn(x: Stream, known: Known, s: nat)
    requires InStream(x, s)
  {
    WholeCopy(s) in known.parts || forall i :: 0 <= i < |PiecesOf(x, s)| ==> Piece(s, i) in known.parts
  }

  /** All packets of the span but `q` are in the set. */
  ghost predicate AllBut(span: Span, packets: set<nat>, q: nat) {
    InSpan(span, q) && forall s :: InSpan(span, s) && s != q ==> s in packets
  }

  /** The set holds what is all there, and what parity rebuilds from its members. */
  ghost predicate Closed(x: Stream, known: Known, packets: set<nat>) {
    && (forall s :: InStream(x, s) && AllIn(x, known, s) ==> s in packets)
    && forall span, q :: span in known.spans && AllBut(span, packets, q) ==> q in packets
  }

  ghost predicate Follows(x: Stream, known: Known, s: nat) {
    forall packets: set<nat> :: Closed(x, known, packets) ==> s in packets
  }

  /** The least closed set. */
  ghost function CompleteSet(x: Stream, known: Known): set<nat> {
    set s | x.start <= s < End(x) && Follows(x, known, s)
  }

  lemma CompleteIsClosed(x: Stream, known: Known)
    requires ValidKnown(x, known)
    ensures Closed(x, known, CompleteSet(x, known))
  {
    var least := CompleteSet(x, known);
    forall s | InStream(x, s) && AllIn(x, known, s)
      ensures s in least
    {
    }
    forall span, q | span in known.spans && AllBut(span, least, q)
      ensures q in least
    {
      assert IsSpan(x, span);
      forall packets: set<nat> | Closed(x, known, packets)
        ensures q in packets
      {
        assert AllBut(span, packets, q);
      }
    }
  }

  lemma CompleteIsLeast(x: Stream, known: Known, packets: set<nat>)
    requires Closed(x, known, packets)
    ensures CompleteSet(x, known) <= packets
  {
  }

  lemma ClosedUnderLess(x: Stream, less: Known, more: Known, packets: set<nat>)
    requires LessKnown(less, more) && Closed(x, more, packets)
    ensures Closed(x, less, packets)
  {
    forall s | InStream(x, s) && AllIn(x, less, s)
      ensures s in packets
    {
      assert AllIn(x, more, s);
    }
  }

  lemma CompleteGrows(x: Stream, less: Known, more: Known)
    requires LessKnown(less, more) && ValidKnown(x, more)
    ensures CompleteSet(x, less) <= CompleteSet(x, more)
  {
    hide Closed, Follows;
    CompleteIsClosed(x, more);
    ClosedUnderLess(x, less, more, CompleteSet(x, more));
    CompleteIsLeast(x, less, CompleteSet(x, more));
  }

  /** A closed set within the least one is the least one. */
  lemma LeastIs(x: Stream, known: Known, packets: set<nat>)
    requires Closed(x, known, packets) && packets <= CompleteSet(x, known)
    ensures packets == CompleteSet(x, known)
  {
    CompleteIsLeast(x, known, packets);
    hide CompleteSet;
  }

  /** With no piece there is nothing complete: parity alone rebuilds nothing. */
  lemma NothingFromParityAlone(x: Stream, known: Known)
    requires ValidStream(x) && ValidKnown(x, known) && known.parts == {}
    ensures CompleteSet(x, known) == {}
  {
    var none: set<nat> := {};
    forall s | InStream(x, s)
      ensures !AllIn(x, known, s)
    {
      assert WholeCopy(s) !in known.parts && Piece(s, 0) !in known.parts && |PiecesOf(x, s)| >= 1;
    }
    forall span, q | span in known.spans && InSpan(span, q)
      ensures !AllBut(span, none, q)
    {
      assert IsSpan(x, span);
      var other := if q == span.first then span.first + 1 else span.first;
      assert InSpan(span, other) && other != q && other !in none;
    }
    CompleteIsLeast(x, known, none);
  }

  /**
    A complete packet beyond one that is not: some piece at or beyond the latter has come.
    Parity carries nothing past a gap, since the packets of a frame are consecutive.
  */
  lemma SomePieceIsBeyond(x: Stream, known: Known, gap: nat, s: nat)
    requires ValidStream(x) && ValidKnown(x, known)
    requires s in CompleteSet(x, known) && gap !in CompleteSet(x, known) && gap < s
    ensures exists part :: part in known.parts && part.sequence >= gap
  {
    var least := CompleteSet(x, known);
    CompleteIsClosed(x, known);
    if forall part :: part in known.parts ==> part.sequence < gap {
      var below := set t | t in least && t < gap;
      forall t | InStream(x, t) && AllIn(x, known, t)
        ensures t in below
      {
        assert WholeCopy(t) in known.parts || Piece(t, 0) in known.parts;
      }
      forall span, q | span in known.spans && AllBut(span, below, q)
        ensures q in below
      {
        assert AllBut(span, least, q);
        assert IsSpan(x, span);
        GapStopsParity(span, below, gap, q);
      }
      CompleteIsLeast(x, known, below);
    }
  }

  lemma GapStopsParity(span: Span, below: set<nat>, gap: nat, q: nat)
    requires span.count >= 2 && AllBut(span, below, q) && q != gap
    requires forall t :: t in below ==> t < gap
    ensures q < gap
  {
    if q > gap {
      var other := if q == span.first then span.first + 1 else span.first;
      assert InSpan(span, other);
      assert InSpan(span, gap);
    }
  }

  // ---------------------------------------------------------------- the gapless prefix

  /** The first packet from s on that is not in the set, or the end of the stretch. */
  function EndFrom(x: Stream, packets: set<nat>, s: nat): (h: nat)
    requires s <= End(x)
    ensures s <= h <= End(x)
    ensures forall t :: s <= t < h ==> t in packets
    ensures h < End(x) ==> h !in packets
    decreases End(x) - s
  {
    if s < End(x) && s in packets then EndFrom(x, packets, s + 1) else s
  }

  /** Where the gapless prefix of complete packets ends. */
  ghost function PrefixEnd(x: Stream, known: Known): nat {
    EndFrom(x, CompleteSet(x, known), x.start)
  }

  lemma EndIs(x: Stream, packets: set<nat>, h: nat)
    requires x.start <= h <= End(x) && (h < End(x) ==> h !in packets)
    requires forall t :: x.start <= t < h ==> t in packets
    ensures EndFrom(x, packets, x.start) == h
  {
    var found := EndFrom(x, packets, x.start);
    assert found < h ==> found in packets;
  }

  // ---------------------------------------------------------------- one loss under each parity frame

  /** All packets of the span but this one have come by themselves. */
  ghost predicate OneLost(x: Stream, known: Known, span: Span, s: nat) {
    InSpan(span, s) && forall t :: InSpan(span, t) && t != s ==> InStream(x, t) && AllIn(x, known, t)
  }

  /** Every packet has come by itself, or is the only one lost of a span whose parity has come. */
  ghost predicate OneLossEach(x: Stream, known: Known) {
    forall s :: InStream(x, s) ==>
      AllIn(x, known, s) || exists span :: span in known.spans && OneLost(x, known, span, s)
  }

  /** Then everything is complete. */
  lemma OneLossIsRepaired(x: Stream, known: Known)
    requires ValidKnown(x, known) && OneLossEach(x, known)
    ensures PrefixEnd(x, known) == End(x)
  {
    CompleteIsClosed(x, known);
    hide CompleteSet;
    var complete := CompleteSet(x, known);
    forall s | InStream(x, s)
      ensures s in complete
    {
      if !AllIn(x, known, s) {
        var span :| span in known.spans && OneLost(x, known, span, s);
        assert AllBut(span, complete, s);
      }
    }
    EndIs(x, complete, End(x));
  }
}
