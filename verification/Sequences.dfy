/**
  Media sequence numbers: 26 bits on the wire, the all-ones value reserved for
  parity frames, so media numbers run over 0..MAX_MEDIA_SEQUENCE and wrap.
*/
module Sequences {

  const MAX_SEQUENCE: nat := 0x3FF_FFFF
  const FEC_SEQUENCE: nat := MAX_SEQUENCE
  const MAX_MEDIA_SEQUENCE: nat := FEC_SEQUENCE - 1

  /** Number of distinct media sequence numbers. */
  const MEDIA_SEQUENCES: nat := MAX_MEDIA_SEQUENCE + 1

  function NextSequence(sequence: nat): nat {
    if sequence == MAX_MEDIA_SEQUENCE then 0 else sequence + 1
  }

  function SequenceAfter(sequence: nat, offset: nat): nat {
    if offset == 0 then sequence else NextSequence(SequenceAfter(sequence, offset - 1))
  }

  method ComputeSequenceAfter(start: nat, offset: nat) returns (sequence: nat)
    ensures sequence == SequenceAfter(start, offset)
  {
    sequence := start;
    for i := 0 to offset
      invariant sequence == SequenceAfter(start, i)
    {
      sequence := NextSequence(sequence);
    }
  }

  /** Stepping is addition modulo the number of media sequences. */
  lemma {:induction false} SequenceAfterIsModular(sequence: nat, offset: nat)
    requires sequence <= MAX_MEDIA_SEQUENCE
    ensures SequenceAfter(sequence, offset) == (sequence + offset) % MEDIA_SEQUENCES
    ensures SequenceAfter(sequence, offset) <= MAX_MEDIA_SEQUENCE
  {
    if offset != 0 {
      SequenceAfterIsModular(sequence, offset - 1);
    }
  }

  /** Starting the count one later. */
  lemma {:induction false} SequenceAfterNext(sequence: nat, offset: nat)
    ensures SequenceAfter(NextSequence(sequence), offset) == SequenceAfter(sequence, offset + 1)
  {
    if offset != 0 {
      SequenceAfterNext(sequence, offset - 1);
    }
  }

  /** No number repeats within one full cycle. */
  lemma SequenceAfterInjective(sequence: nat, i: nat, j: nat)
    requires sequence <= MAX_MEDIA_SEQUENCE
    requires i < j < i + MEDIA_SEQUENCES
    ensures SequenceAfter(sequence, i) != SequenceAfter(sequence, j)
  {
    SequenceAfterIsModular(sequence, i);
    SequenceAfterIsModular(sequence, j);
    assert (sequence + j) - (sequence + i) == j - i;
  }

  /** While no wrap has happened the count is linear. */
  lemma SequenceAfterLinear(sequence: nat, offset: nat)
    requires sequence + offset <= MAX_MEDIA_SEQUENCE
    ensures SequenceAfter(sequence, offset) == sequence + offset
  {
    SequenceAfterIsModular(sequence, offset);
  }
}
