/** The inspection dialog (`frmInspect.InspectUI`): it counts down the
    board's reboot time once a second, enables its two verdict buttons when
    the count reaches zero, and keeps the verdict the operator clicks. */
module Inspect {
  import opened Wrappers
  import opened Text
  import opened RecordTable

  /** The countdown used when the configuration has no `reboot_timeout`
      (frmInspect.py line 9). */
  const DefaultTimeout: int := 15

  /** The two `ValueError`s of `int()` on a configuration value: a blank
      (NaN) value, and text that is not an integer, kept here. */
  datatype TimeoutError = NotANumber | NotAnInteger(text: string)

  /** `int(config.get('reboot_timeout', 15))` on the value read from the
      configuration file, or the error `int` raises. */
  function TimeoutFromConfig(value: Option<Cell>): (r: Result<int, TimeoutError>)
    ensures value.None? ==> r == Success(DefaultTimeout)
    ensures value.Some? && value.value.Int? ==> r == Success(value.value.i)
    ensures value == Some(Blank) ==> r == Failure(NotANumber)
    ensures value.Some? && value.value.Str? && ParseInt(value.value.s).Some? ==>
      r == Success(ParseInt(value.value.s).value)
    ensures value.Some? && value.value.Str? && ParseInt(value.value.s).None? ==>
      r == Failure(NotAnInteger(value.value.s))
  {
    match value
    case None => Success(DefaultTimeout)
    case Some(Int(i)) => Success(i)
    case Some(Blank) => Failure(NotANumber)
    case Some(Str(s)) =>
      match ParseInt(s)
      case Some(i) => Success(i)
      case None => Failure(NotAnInteger(s))
  }

  /** The countdown caption (line 28). */
  function Label(t: int): string {
    "REBOOTING.. WAIT " + IntToString(t) + " SECONDS..."
  }

  /** The dialog's observable state: the remaining count, the verdict, the
      two buttons, the caption, whether a timer is pending, and whether the
      dialog was closed. */
  datatype Dialog = Dialog(timeout: int, result: bool, goodEnabled: bool, badEnabled: bool,
                           caption: string, armed: bool, closed: bool)

  /** One call of `countdown` (lines 27-37). */
  function Tick(d: Dialog): Dialog {
    var enable := d.timeout == 0;
    d.(caption := Label(d.timeout),
       goodEnabled := d.goodEnabled || enable,
       badEnabled := d.badEnabled || enable,
       armed := !enable,
       timeout := d.timeout - 1)
  }

  /** The dialog as `__init__` leaves it: verdict false, both buttons
      disabled, then a first `countdown` (lines 9-25). */
  function Opened(t: int): Dialog {
    Tick(Dialog(t, false, false, false, "", false, false))
  }

  /** `reportResult` (lines 39-41). */
  function Report(d: Dialog, verdict: bool): Dialog {
    d.(result := verdict, closed := true)
  }

  /** `k` further timer ticks. */
  function AfterTicks(d: Dialog, k: nat): Dialog
    decreases k
  {
    if k == 0 then d else AfterTicks(Tick(d), k - 1)
  }

  /** The open dialog `n` timer ticks after it was opened with count `t`:
      the caption shows `t - n`, the buttons are enabled exactly when the
      count reached zero on the way (`0 <= t <= n`), and another tick is
      pending unless the count just reached zero. */
  function Counted(t: int, n: nat): Dialog {
    Dialog(t - 1 - n, false, 0 <= t <= n, 0 <= t <= n, Label(t - n), t - n != 0, false)
  }

  lemma {:induction false} CountdownState(t: int, k: nat)
    ensures AfterTicks(Opened(t), k) == Counted(t, k)
  {
    CountdownFrom(t, 0, k);
  }

  lemma {:induction false} CountdownFrom(t: int, n: nat, k: nat)
    ensures AfterTicks(Counted(t, n), k) == Counted(t, n + k)
    decreases k
  {
    if k > 0 {
      TickCounted(t, n);
      CountdownFrom(t, n + 1, k - 1);
    }
  }

  /** One tick of the open dialog advances the count by one. */
  lemma TickCounted(t: int, n: nat)
    ensures Tick(Counted(t, n)) == Counted(t, n + 1)
  {
    var d := Counted(t, n);
    assert Tick(d).caption == Label(t - (n + 1));
    assert Tick(d).goodEnabled == (0 <= t <= n + 1);
  }

  /** With a non-negative timeout the verdict buttons stay disabled and the
      timer keeps running for `t` ticks, and are enabled with the timer
      stopped after them; a negative timeout never enables them, so the
      dialog (which has no close button) cannot be left. */
  lemma ButtonsEnabledAfterTimeout(t: int, k: nat)
    ensures t >= 0 && k < t ==> !AfterTicks(Opened(t), k).goodEnabled && AfterTicks(Opened(t), k).armed
    ensures t >= 0 ==> AfterTicks(Opened(t), t).goodEnabled && AfterTicks(Opened(t), t).badEnabled &&
                       !AfterTicks(Opened(t), t).armed
    ensures t < 0 ==> !AfterTicks(Opened(t), k).goodEnabled && !AfterTicks(Opened(t), k).badEnabled &&
                      AfterTicks(Opened(t), k).armed
  {
    CountdownState(t, k);
    if t >= 0 {
      CountdownState(t, t);
    }
  }

  /** The verdict `exec_()` leaves in `result` when the operator means
      `good`: the Good button gives `True`, but a negative count never
      enables it, and the dialog can then only be left with Esc, which keeps
      `False`. */
  function DialogVerdict(t: int, good: bool): bool {
    good && t >= 0
  }

  /** `True` comes back exactly when the operator chose Good and the Good
      button is enabled once the countdown has run out. */
  lemma DialogVerdictNeedsButton(t: int, good: bool)
    ensures DialogVerdict(t, good) <==> good && AfterTicks(Opened(t), if t >= 0 then t else 0).goodEnabled
  {
    ButtonsEnabledAfterTimeout(t, if t >= 0 then t else 0);
  }

  /** The dialog window. */
  class InspectDialog {
    var timeout: int
    var result: bool
    var goodEnabled: bool
    var badEnabled: bool
    var caption: string
    var armed: bool
    var closed: bool

    function State(): Dialog
      reads this
    {
      Dialog(timeout, result, goodEnabled, badEnabled, caption, armed, closed)
    }

    constructor (t: int)
      ensures State() == Opened(t)
    {
      timeout := t;
      result := false;
      goodEnabled := false;
      badEnabled := false;
      caption := "";
      armed := false;
      closed := false;
      new;
      Countdown();
    }

    method Countdown()
      modifies this
      ensures State() == Tick(old(State()))
    {
      caption := Label(timeout);
      if timeout == 0 {
        goodEnabled := true;
        badEnabled := true;
        armed := false;
      } else {
        armed := true;
      }
      timeout := timeout - 1;
    }

    method ReportResult(verdict: bool)
      modifies this
      ensures State() == Report(old(State()), verdict)
    {
      result := verdict;
      closed := true;
    }
  }

  /** `get_inspect_result`'s modal run of the dialog: the timer fires until
      it stops, then the operator clicks a verdict button. The buttons are
      enabled after exactly `t` ticks, with the caption showing 0 and no
      timer pending, when the verdict is clicked; the dialog closes and
      returns that verdict. */
  method RunDialog(t: int, verdict: bool) returns (result: bool, ticks: nat, final: Dialog)
    requires t >= 0
    ensures ticks == t && result == verdict
    ensures final.goodEnabled && final.badEnabled && !final.armed && final.caption == Label(0)
    ensures final.closed && final.result == verdict
  {
    var dialog := new InspectDialog(t);
    ticks := 0;
    CountdownState(t, 0);
    while dialog.armed
      invariant ticks <= t
      invariant dialog.State() == AfterTicks(Opened(t), ticks)
      decreases t - ticks
    {
      CountdownState(t, ticks);
      AfterTicksStep(Opened(t), ticks);
      dialog.Countdown();
      ticks := ticks + 1;
    }
    CountdownState(t, ticks);
    assert dialog.goodEnabled;
    dialog.ReportResult(verdict);
    result := dialog.result;
    final := dialog.State();
  }

  lemma {:induction false} AfterTicksStep(d: Dialog, k: nat)
    ensures AfterTicks(d, k + 1) == Tick(AfterTicks(d, k))
    decreases k
  {
    if k > 0 {
      AfterTicksStep(Tick(d), k - 1);
    }
  }
}
