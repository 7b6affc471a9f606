/**
 * The motion decision in `CameraInstance.run`: each pulled batch of
 * notification messages overwrites the local `mess_tree` with every
 * message's first SimpleItem value in turn, and a clip is requested when the
 * value it then holds is the string "true". The local survives from one
 * iteration of the `while` loop to the next, so a batch that assigns nothing
 * leaves the previous value in force; before any assignment it is unbound,
 * and reading it raises an error that the loop catches and logs.
 */
module Motion {
  import opened Wrappers

  /** The SimpleItem value that means motion is in progress. */
  const MotionValue := "true"

  /**
   * One NotificationMessage, reduced to its first SimpleItem's Value; None
   * when that path cannot be read (no SimpleItem, missing Data, ...), and
   * reading it makes the assignment in `run`'s batch loop raise.
   */
  datatype Message = Message(value: Option<string>)

  /** The result of one PullMessages call: an error, or a batch of messages. */
  datatype Pull = PullFailed | Batch(messages: seq<Message>)

  /** What one iteration of the loop does. */
  datatype Outcome =
    | Triggered       // `snapshot` is awaited
    | Quiet           // the value is not "true": nothing happens
    | Logged          // an error was raised, caught and logged

  /**
   * The values assigned to `mess_tree` while iterating over a batch: one per
   * message, stopping at the first message whose value cannot be read.
   */
  function Values(batch: seq<Message>): seq<string>
  {
    if batch == [] then []
    else match batch[0].value
      case None => []
      case Some(v) => [v] + Values(batch[1..])
  }

  /**
   * The values read from a batch are its messages' values, in order, up to
   * the first message that cannot be read, which stops the loop.
   */
  lemma {:induction false} ValuesRead(batch: seq<Message>)
    ensures |Values(batch)| <= |batch|
    ensures forall i :: 0 <= i < |Values(batch)| ==> batch[i].value == Some(Values(batch)[i])
    ensures |Values(batch)| < |batch| ==> batch[|Values(batch)|].value.None?
  {
    if batch != [] && batch[0].value.Some? {
      ValuesRead(batch[1..]);
    }
  }

  /** Every message of the batch has a readable value. */
  predicate Readable(batch: seq<Message>)
  {
    forall i :: 0 <= i < |batch| ==> batch[i].value.Some?
  }

  /** The variable after the assignments `vs`, starting from `prev`. */
  function Latest(prev: Option<string>, vs: seq<string>): Option<string>
  {
    if vs == [] then prev else Some(vs[|vs| - 1])
  }

  /** The values a pull assigns (none when the pull itself fails). */
  function PullValues(p: Pull): seq<string>
  {
    if p.Batch? then Values(p.messages) else []
  }

  /**
   * `mess_tree` after the pulls, starting unbound (None): each pull's values
   * are assigned in turn.
   */
  function Carried(pulls: seq<Pull>): Option<string>
  {
    if pulls == [] then None
    else Latest(Carried(pulls[..|pulls| - 1]), PullValues(pulls[|pulls| - 1]))
  }

  /**
   * What an iteration does with pull `p`, `carried` being `mess_tree` once
   * the pull's messages have been read.
   */
  function Verdict(p: Pull, carried: Option<string>): Outcome
  {
    if p.PullFailed? || !Readable(p.messages) then Logged
    else match carried
      case None => Logged
      case Some(v) => if v == MotionValue then Triggered else Quiet
  }

  /** What the loop does on the last of the pulls, given all of them so far. */
  function Decide(pulls: seq<Pull>): Outcome
    requires pulls != []
  {
    Verdict(pulls[|pulls| - 1], Carried(pulls))
  }

  /**
   * The `for` loop over one batch: assigns each message's value in turn and
   * stops with an error at the first one that cannot be read; the
   * assignments made before the error stay in effect.
   */
  method ReadBatch(messTree: Option<string>, batch: seq<Message>) returns (current: Option<string>, raised: bool)
    ensures raised <==> !Readable(batch)
    ensures current == Latest(messTree, Values(batch))
    ensures !raised && batch != [] ==> current == batch[|batch| - 1].value
    ensures !raised && batch == [] ==> current == messTree
  {
    current := messTree;
    for i := 0 to |batch|
      invariant forall j :: 0 <= j < i ==> batch[j].value.Some?
      invariant current == if i == 0 then messTree else batch[i - 1].value
    {
      if batch[i].value.None? {
        ValuesRead(batch);
        assert |Values(batch)| == i;
        return current, true;
      }
      current := batch[i].value;
    }
    ValuesRead(batch);
    raised := false;
  }

  /**
   * One iteration of the `while` loop of `run` (the `try` block): pull, read
   * the batch into `mess_tree`, and request a clip when it holds "true".
   */
  method Poll(messTree: Option<string>, pull: Pull) returns (current: Option<string>, outcome: Outcome)
    ensures current == Latest(messTree, PullValues(pull))
    ensures outcome == Verdict(pull, current)
  {
    match pull {
      case PullFailed =>
        current, outcome := messTree, Logged;
      case Batch(messages) =>
        var raised;
        current, raised := ReadBatch(messTree, messages);
        if raised || current.None? {
          outcome := Logged;
        } else if current.value == MotionValue {
          outcome := Triggered;
        } else {
          outcome := Quiet;
        }
    }
  }

  /**
   * The `while` loop of `run`, over the pulls it makes until the program is
   * stopped: one outcome per pull, starting with `mess_tree` unbound.
   */
  method Run(pulls: seq<Pull>) returns (outcomes: seq<Outcome>)
    ensures |outcomes| == |pulls|
    ensures forall i :: 0 <= i < |pulls| ==> outcomes[i] == Decide(pulls[..i + 1])
  {
    var messTree: Option<string> := None;
    outcomes := [];
    for i := 0 to |pulls|
      invariant |outcomes| == i
      invariant messTree == Carried(pulls[..i])
      invariant forall j :: 0 <= j < i ==> outcomes[j] == Decide(pulls[..j + 1])
    {
      assert pulls[..i + 1] == pulls[..i] + [pulls[i]];
      CarriedAfter(pulls[..i], pulls[i]);
      var outcome;
      messTree, outcome := Poll(messTree, pulls[i]);
      outcomes := outcomes + [outcome];
    }
  }

  /**
   * One more pull: the values it assigns, if any, replace the carried one;
   * a pull that fails or assigns nothing leaves it as it was.
   */
  lemma CarriedAfter(pulls: seq<Pull>, p: Pull)
    ensures Carried(pulls + [p]) == Latest(Carried(pulls), PullValues(p))
  {
    var ps := pulls + [p];
    assert ps[..|ps| - 1] == pulls && ps[|ps| - 1] == p;
  }

  /** `mess_tree` is unbound exactly when no pull so far has assigned a value. */
  lemma {:induction false} CarriedUnbound(pulls: seq<Pull>)
    ensures Carried(pulls).None? <==> forall j :: 0 <= j < |pulls| ==> PullValues(pulls[j]) == []
  {
    if pulls != [] {
      var init, last := pulls[..|pulls| - 1], pulls[|pulls| - 1];
      assert Carried(pulls) == Latest(Carried(init), PullValues(last)) by {
        assert init + [last] == pulls;
        CarriedAfter(init, last);
      }
      assert Carried(init).None? <==> forall j :: 0 <= j < |init| ==> PullValues(init[j]) == [] by {
        CarriedUnbound(init);
      }
      assert forall j :: 0 <= j < |init| ==> init[j] == pulls[j];
    }
  }

  /**
   * The carried value is the last value of the most recent pull that
   * assigned any: if pull `j` assigned values and no later pull did, it is
   * the last of pull `j`'s values.
   */
  lemma {:induction false} CarriedFromMostRecent(pulls: seq<Pull>, j: nat)
    requires j < |pulls| && PullValues(pulls[j]) != []
    requires forall m :: j < m < |pulls| ==> PullValues(pulls[m]) == []
    ensures Carried(pulls) == Some(PullValues(pulls[j])[|PullValues(pulls[j])| - 1])
  {
    var init := pulls[..|pulls| - 1];
    if j < |pulls| - 1 {
      assert forall m :: j <= m < |init| ==> init[m] == pulls[m];
      CarriedFromMostRecent(init, j);
    }
  }

  /**
   * A readable, non-empty batch decides by its own last value: a clip is
   * requested when that value is "true" and not otherwise, whatever came
   * before.
   */
  lemma LastValueDecides(pulls: seq<Pull>, messages: seq<Message>)
    requires Readable(messages) && messages != []
    ensures Decide(pulls + [Batch(messages)]) ==
              if messages[|messages| - 1].value == Some(MotionValue) then Triggered else Quiet
  {
    CarriedAfter(pulls, Batch(messages));
    ValuesRead(messages);
    assert |Values(messages)| == |messages|;
  }

  /**
   * An empty batch repeats the decision of the value carried over: a clip is
   * requested again when it is "true", and on the very first pull, with
   * `mess_tree` still unbound, the error is logged.
   */
  lemma EmptyBatchRepeatsDecision(pulls: seq<Pull>)
    ensures Decide(pulls + [Batch([])]) ==
              match Carried(pulls)
              case None => Logged
              case Some(v) => if v == MotionValue then Triggered else Quiet
    ensures pulls == [] ==> Decide(pulls + [Batch([])]) == Logged
  {
    CarriedAfter(pulls, Batch([]));
  }

  /**
   * A batch with an unreadable message requests nothing, but the values
   * read before that message are carried to the next pull.
   */
  lemma UnreadableBatchIsLogged(pulls: seq<Pull>, messages: seq<Message>)
    requires !Readable(messages)
    ensures Decide(pulls + [Batch(messages)]) == Logged
    ensures Carried(pulls + [Batch(messages)]) == Latest(Carried(pulls), Values(messages))
    ensures |Values(messages)| < |messages|
  {
    CarriedAfter(pulls, Batch(messages));
    ValuesRead(messages);
  }
}
