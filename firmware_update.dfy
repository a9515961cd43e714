/** The firmware-update sequence of the settings page (data/script.js): the
    update button `fUp` and the notice `uploadMsg`, driven by the button's
    click (`uploadPrep`), the prepare reply, the one-second wait timer and
    the readiness poll (`uploadWait`), and the upload's progress and reply
    (`upload`). Replies, timers and the reload are events and counters. */
module FirmwareUpdate {
  import opened JsValues

  /** Which callback the sequence is waiting for. */
  datatype Phase =
    | Idle        // the button is enabled
    | Preparing   // the prepare request is out
    | Waiting     // the one-second timer before a poll is running
    | Polling     // a readiness poll is out
    | Uploading   // the file is being posted
    | Reloading   // the device accepted the image; a page reload is scheduled

  /** The button's `value` and `disabled`, the notice's `value`, and the
      number of page reloads scheduled. */
  datatype Update = Update(phase: Phase, caption: string, disabled: bool, notice: string, reloads: nat)

  datatype Event =
    | Click(files: nat)                       // the button, with this many files chosen
    | PrepareReply(reply: Option<Object>)     // completion of `{"doUpdate":1}`
    | TimerElapsed                            // the one-second wait is over
    | PollReply(reply: Option<Object>)        // completion of `{"doUpdate":2}`
    | Progress(loaded: nat, total: nat)       // an upload progress event
    | UploadReply(reply: Option<Object>)      // completion of the upload

  const IdleLabel := "Upload Now"
  const PreparingLabel := "Preparing Device\U{2026}"
  const UploadStartLabel := "Uploading\U{2026} 0%"
  const CompleteLabel := "Upload complete. Processing\U{2026}"
  const FailedNotice := "<b>Update failed!</b>"

  /** The page as loaded: the button enabled, nothing scheduled. */
  function Initial(caption: string, notice: string): Update {
    Update(Idle, caption, false, notice, 0)
  }

  function PrepareFallback(): Object {
    map["success" := Num(0), "doUpdate" := Num(1)]
  }

  function PollFallback(): Object {
    map["success" := Num(0)]
  }

  function UploadFallback(): Object {
    map["success" := Num(0), "message" := Str("No response from device.")]
  }

  /** The device agrees to take an update. */
  predicate PrepareAccepted(reply: Option<Object>) {
    var r := Parsed(reply, PrepareFallback());
    LooseEqualsNumber(Get(r, "success"), 1) && LooseEqualsNumber(Get(r, "doUpdate"), 1)
  }

  /** The device is ready for the image. */
  predicate PollSucceeded(reply: Option<Object>) {
    LooseEqualsNumber(Get(Parsed(reply, PollFallback()), "success"), 1)
  }

  predicate UploadSucceeded(reply: Option<Object>) {
    LooseEqualsNumber(Get(Parsed(reply, UploadFallback()), "success"), 1)
  }

  /** `String(r.message)` of an upload reply. */
  function UploadMessage(reply: Option<Object>): string {
    ToStr(Get(Parsed(reply, UploadFallback()), "message"))
  }

  /** `Math.ceil(loaded / total * 100)` in exact arithmetic. */
  function Percent(loaded: nat, total: nat): (p: nat)
    requires total > 0
    ensures (p - 1) * total < 100 * loaded <= p * total
  {
    var a := 100 * loaded + total - 1;
    var p := a / total;
    assert a == p * total + a % total && 0 <= a % total < total;
    p
  }

  /** The button's text after a progress event. */
  function ProgressLabel(loaded: nat, total: nat): string {
    if total > 0 && Percent(loaded, total) < 100
    then "Uploading... " + IntToString(Percent(loaded, total)) + "%"
    else CompleteLabel
  }

  /** The button is disabled exactly while a step of the sequence is
      pending, and a reload has been scheduled exactly when the sequence
      has reached its end. */
  ghost predicate Consistent(s: Update) {
    (s.disabled <==> s.phase != Idle)
    && s.reloads == (if s.phase == Reloading then 1 else 0)
  }

  /** The state after event `e`. An event the current phase does not wait
      for leaves the state unchanged; a click on the disabled button is
      never delivered. */
  function Step(s: Update, e: Event): (r: Update)
    ensures e.Click? && (s.disabled || e.files == 0) ==> r == s
    ensures e.PrepareReply? && s.phase == Preparing ==>
      (r.phase == Waiting <==> PrepareAccepted(e.reply))
    ensures e.PrepareReply? && s.phase == Preparing && !PrepareAccepted(e.reply) ==>
      r == s.(phase := Idle, notice := FailedNotice, caption := IdleLabel, disabled := false)
    ensures e.PollReply? && s.phase == Polling ==>
      (if PollSucceeded(e.reply) then r.phase == Uploading else r.phase == Waiting && r == s.(phase := Waiting))
    ensures e.UploadReply? && s.phase == Uploading && UploadSucceeded(e.reply) ==>
      r.phase == Reloading && r.caption == UploadMessage(e.reply) && r.reloads == s.reloads + 1
    ensures e.UploadReply? && s.phase == Uploading && !UploadSucceeded(e.reply) ==>
      r == s.(phase := Idle, notice := FailedNotice + " " + UploadMessage(e.reply), caption := IdleLabel, disabled := false)
    ensures r.reloads != s.reloads ==>
      e.UploadReply? && UploadSucceeded(e.reply) && s.phase == Uploading
      && r.phase == Reloading && r.reloads == s.reloads + 1
    ensures r.phase == Idle && s.phase != Idle ==>
      !r.disabled && r.caption == IdleLabel
      && |FailedNotice| <= |r.notice| && r.notice[..|FailedNotice|] == FailedNotice
    ensures s.phase == Reloading && s.disabled ==> r == s
    ensures Consistent(s) ==> Consistent(r)
  {
    match e
    case Click(files) =>
      if s.disabled || files == 0 then s
      else s.(phase := Preparing, disabled := true, caption := PreparingLabel)
    case PrepareReply(reply) =>
      if s.phase != Preparing then s
      else if PrepareAccepted(reply) then s.(phase := Waiting)
      else s.(phase := Idle, notice := FailedNotice, caption := IdleLabel, disabled := false)
    case TimerElapsed =>
      if s.phase == Waiting then s.(phase := Polling) else s
    case PollReply(reply) =>
      if s.phase != Polling then s
      else if PollSucceeded(reply) then s.(phase := Uploading, caption := UploadStartLabel)
      else s.(phase := Waiting)
    case Progress(loaded, total) =>
      if s.phase == Uploading then s.(caption := ProgressLabel(loaded, total)) else s
    case UploadReply(reply) =>
      if s.phase != Uploading then s
      else if UploadSucceeded(reply) then
        s.(phase := Reloading, caption := UploadMessage(reply), reloads := s.reloads + 1)
      else
        s.(phase := Idle, notice := FailedNotice + " " + UploadMessage(reply), caption := IdleLabel, disabled := false)
  }

  /** The state after a sequence of events. */
  function Run(s: Update, es: seq<Event>): Update
    decreases |es|
  {
    if es == [] then s else Run(Step(s, es[0]), es[1..])
  }

  /** The events of polling rounds: the timer, then the poll's reply. */
  function Rounds(replies: seq<Option<Object>>): (es: seq<Event>)
    ensures |es| == 2 * |replies|
  {
    if replies == [] then [] else [TimerElapsed, PollReply(replies[0])] + Rounds(replies[1..])
  }

  // ---------------------------------------------------------------------

  lemma {:induction false} RunAppend(s: Update, a: seq<Event>, b: seq<Event>)
    ensures Run(s, a + b) == Run(Run(s, a), b)
    decreases |a|
  {
    if a == [] {
      assert a + b == b;
    } else {
      assert (a + b)[0] == a[0];
      assert (a + b)[1..] == a[1..] + b;
      RunAppend(Step(s, a[0]), a[1..], b);
    }
  }

  /** One polling round: the timer, then the poll's reply. */
  lemma RunRound(s: Update, reply: Option<Object>)
    ensures Run(s, [TimerElapsed, PollReply(reply)]) == Step(Step(s, TimerElapsed), PollReply(reply))
  {
    var t := Step(s, TimerElapsed);
    assert [TimerElapsed, PollReply(reply)][1..] == [PollReply(reply)];
    assert Run(s, [TimerElapsed, PollReply(reply)]) == Run(t, [PollReply(reply)]);
    assert [PollReply(reply)][1..] == [];
    assert Run(t, [PollReply(reply)]) == Run(Step(t, PollReply(reply)), []);
  }

  /** Any number of polls the device is not ready for leave the sequence
      waiting exactly where it was: the wait has no retry limit. */
  lemma {:induction false} RetryForever(s: Update, replies: seq<Option<Object>>)
    requires s.phase == Waiting
    requires forall t :: 0 <= t < |replies| ==> !PollSucceeded(replies[t])
    ensures Run(s, Rounds(replies)) == s
    decreases |replies|
  {
    if replies != [] {
      var es := Rounds(replies);
      assert es == [TimerElapsed, PollReply(replies[0])] + Rounds(replies[1..]);
      RunAppend(s, [TimerElapsed, PollReply(replies[0])], Rounds(replies[1..]));
      RunRound(s, replies[0]);
      RetryForever(s, replies[1..]);
    }
  }

  /** However many polls fail first, the first successful poll starts the
      upload. */
  lemma ReadyStartsUpload(s: Update, replies: seq<Option<Object>>, ok: Option<Object>)
    requires s.phase == Waiting
    requires forall t :: 0 <= t < |replies| ==> !PollSucceeded(replies[t])
    requires PollSucceeded(ok)
    ensures Run(s, Rounds(replies) + [TimerElapsed, PollReply(ok)])
         == s.(phase := Uploading, caption := UploadStartLabel)
  {
    RunAppend(s, Rounds(replies), [TimerElapsed, PollReply(ok)]);
    RetryForever(s, replies);
    RunRound(s, ok);
  }

  lemma {:induction false} RunConsistent(s: Update, es: seq<Event>)
    requires Consistent(s)
    ensures Consistent(Run(s, es))
    decreases |es|
  {
    if es != [] {
      RunConsistent(Step(s, es[0]), es[1..]);
    }
  }

  /** A reload is scheduled only by the reply of an upload the device
      accepted. */
  lemma {:induction false} ReloadNeedsSuccess(s: Update, es: seq<Event>)
    ensures Run(s, es).reloads != s.reloads ==>
      exists t :: 0 <= t < |es| && es[t].UploadReply? && UploadSucceeded(es[t].reply)
    decreases |es|
  {
    if es != [] {
      var s' := Step(s, es[0]);
      ReloadNeedsSuccess(s', es[1..]);
      if Run(s', es[1..]).reloads != s'.reloads {
        var t :| 0 <= t < |es[1..]| && es[1..][t].UploadReply? && UploadSucceeded(es[1..][t].reply);
        assert es[t + 1] == es[1..][t];
      }
    }
  }

  /** From the page as loaded, whatever happens, at most one reload is ever
      scheduled, and only once the upload has succeeded. */
  lemma AtMostOneReload(caption: string, notice: string, es: seq<Event>)
    ensures Run(Initial(caption, notice), es).reloads <= 1
    ensures Run(Initial(caption, notice), es).reloads == 1 <==> Run(Initial(caption, notice), es).phase == Reloading
    ensures Run(Initial(caption, notice), es).reloads == 1 ==>
      exists t :: 0 <= t < |es| && es[t].UploadReply? && UploadSucceeded(es[t].reply)
  {
    RunConsistent(Initial(caption, notice), es);
    ReloadNeedsSuccess(Initial(caption, notice), es);
  }

  /** The rounded-up percentage is below 100 exactly when at most 99% has
      been sent. */
  lemma PercentBelowHundred(loaded: nat, total: nat)
    requires total > 0
    ensures Percent(loaded, total) < 100 <==> 100 * loaded <= 99 * total
  {
    var p := Percent(loaded, total);
    if p < 100 {
      MultiplyMonotone(p, 99, total);
    } else {
      MultiplyMonotone(99, p - 1, total);
    }
  }

  lemma MultiplyMonotone(a: nat, b: nat, c: nat)
    requires a <= b
    ensures a * c <= b * c
  {
  }

  /** The progress caption reads "complete" exactly when the rounded-up
      percentage reaches 100, that is when more than 99% has been sent (or
      the total is unknown). */
  lemma ProgressComplete(loaded: nat, total: nat)
    ensures ProgressLabel(loaded, total) == CompleteLabel <==> total == 0 || 100 * loaded > 99 * total
  {
    if total > 0 {
      PercentBelowHundred(loaded, total);
      if Percent(loaded, total) < 100 {
        var l := "Uploading... " + IntToString(Percent(loaded, total)) + "%";
        assert l[6] != CompleteLabel[6];
      }
    }
  }
}
