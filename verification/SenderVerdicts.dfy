/** What each answer does to the sender, and what it returns, in the bytes on the line. */
module SenderVerdicts {
  import opened Bytes
  import opened Numerals
  import opened Packet
  import opened Sender

  /** The phases in which a byte that is no ACK is passed over. */
  predicate Patient(phase: Phase) { phase.Announce? || phase.EndSession? }

  /** A turn that counts as a failed attempt. */
  predicate Counted(tx: Tx, tick: Tick) {
    match tx.phase
    case Announce => tick == Silence
    case Await => false
    case Data(_, _) => tick != Got(0x06)
    case EndFile => tick != Got(0x06)
    case EndSession => tick == Silence
    case LastEnd => tick != Got(0x06) && tx.errors >= 9
  }

  /** An ACK, and nothing else, takes the sender on, except that anything ends the wait behind the header;
      attempts are counted in a row, and the tenth ends the transfer. */
  lemma TurnIff(job: Job, tx: Tx, tick: Tick)
    requires WfTx(job, tx) && tx.result.None?
    ensures var tx' := Turn(job, tx, tick);
            && (tx'.phase != tx.phase <==> tx.phase.Await? || (tick == Got(0x06) && !tx.phase.LastEnd?))
            && (tx'.result.Some? <==> if tx.phase.LastEnd? then tx.errors < 9 || tick == Got(0x06) || Counted(tx, tick)
                                      else Counted(tx, tick) && tx.errors >= 9)
            && (tx'.result.Some? ==> tx'.result.value == if Counted(tx, tick) then tx.errors + 1 else 0)
            && (tx'.phase == tx.phase ==> tx'.errors == if Counted(tx, tick) then tx.errors + 1 else tx.errors)
            && (tx'.phase != tx.phase ==> tx'.errors == if Patient(tx.phase) then tx.errors else 0)
            && tx'.out == tx.out + Message(job, tx)
  {
    hide Message;
  }

  /** A turn that leaves the control state as it is only sends its message once more. */
  lemma Repeated(job: Job, tx: Tx, tick: Tick)
    requires WfTx(job, tx) && tx.result.None? && Patient(tx.phase) && tick.Got? && tick != Got(0x06)
    ensures Turn(job, tx, tick) == tx.(out := tx.out + Message(job, tx))
  {
    hide Message;
  }

  /** The `n`th failed attempt still to come is the tenth: the transfer ends with 10, where it was. */
  lemma {:induction false} TenFailuresEnd(job: Job, tx: Tx, ticks: seq<Tick>, rest: seq<Tick>)
    requires WfTx(job, tx) && tx.result.None? && tx.errors + |ticks| == 10 && ticks != []
    requires !tx.phase.LastEnd? && forall i :: 0 <= i < |ticks| ==> Counted(tx, ticks[i])
    ensures var end := Run(job, tx, ticks + rest);
            end.result == Some(10) && end.phase == tx.phase
    decreases |ticks|
  {
    hide Turn, Message;
    var input := ticks + rest;
    var tx' := Turn(job, tx, ticks[0]);
    RunUnfolds(job, tx, input);
    assert Head(input) == ticks[0] && Tail(input) == ticks[1..] + rest;
    TurnIff(job, tx, ticks[0]);
    if |ticks| > 1 {
      TenFailuresEnd(job, tx', ticks[1..], rest);
    }
  }

  /** Ten silences end the transfer in every phase but the wait behind the header and the last one. */
  lemma {:induction false} SilenceGivesUp(job: Job, tx: Tx)
    requires WfTx(job, tx) && tx.result.None? && tx.errors <= 9 && !tx.phase.LastEnd? && !tx.phase.Await?
    ensures Run(job, tx, []).result == Some(10) && Run(job, tx, []).phase == tx.phase
    decreases 9 - tx.errors
  {
    hide Turn, Message;
    RunUnfolds(job, tx, []);
    TurnIff(job, tx, Silence);
    if tx.errors < 9 { SilenceGivesUp(job, Turn(job, tx, Silence)); }
  }
}
