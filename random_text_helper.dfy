/**
 * RandomTextHelper: the animation state of a text label whose text is redrawn, tick after
 * tick, as its template with freshly generated strings spliced over the placeholders.
 *
 * Generated strings and parsed rules are inputs (`generated`, `parsed`); the message queue of
 * the UI thread is reduced to the one tick the helper may have pending.
 */
module RandomText {
  import opened Wrappers
  import opened Substitution
  import opened SavedState

  /** The tick interval init installs, in milliseconds. */
  const DefaultDelay: Long := 70

  /** The redraw callback as seen by the UI thread's queue: none pending, or one posted with a delay. */
  datatype Tick = Idle | Scheduled(delay: Long)

  /** The TextView the helper decorates; only its enabled flag and its text matter here. */
  class Host {
    var enabled: bool
    var text: string

    constructor (text: string)
      ensures this.text == text && enabled
    {
      this.text := text;
      enabled := true;
    }
  }

  /** The three declarative attributes init reads; an absent string attribute is "". */
  datatype Attributes = Attributes(rules: string, template: string, autoStart: bool)

  /** init calls setTemplate exactly when both template and rules attributes are non-empty. */
  predicate Configures(attrs: Option<Attributes>)
  {
    attrs.Some? && attrs.value.template != "" && attrs.value.rules != ""
  }

  class RandomTextHelper {
    var template: string
    var drawText: string
    var isFinish: bool
    var delayMillis: Long
    var host: Host?
    var rules: seq<Rule>
    var pending: Tick

    /** The bound host as a frame: empty before init has bound one. */
    function Bound(): set<Host>
      reads this`host
    {
      if host == null then {} else {host}
    }

    /** A new helper holds Java's default field values: nothing set, nothing pending. */
    constructor ()
      ensures template == "" && drawText == "" && !isFinish && delayMillis == 0
      ensures host == null && rules == [] && pending == Idle
    {
      template, drawText, isFinish, delayMillis := "", "", false, 0;
      host, rules, pending := null, [], Idle;
    }

    /**
     * init: binds the host (a missing host is the IllegalArgumentException, `ok == false`);
     * applies the template and rules attributes and, with autoStart, starts the animation
     * while the delay still has its old value; then aligns the host's enabled flag with
     * "finished" and only afterwards installs the default delay.
     */
    method Init(view: Host?, attrs: Option<Attributes>, parsed: seq<Rule>, generated: seq<string>)
      returns (ok: bool)
      requires Generated(parsed, generated)
      modifies this, view
      ensures host == view && ok == (view != null)
      ensures !ok ==> (template == old(template) && rules == old(rules) && drawText == old(drawText)
        && isFinish == old(isFinish) && delayMillis == old(delayMillis) && pending == old(pending))
      ensures ok ==> delayMillis == DefaultDelay && view.enabled == isFinish && view.text == old(view.text)
      ensures ok && Configures(attrs) ==> template == attrs.value.template && rules == parsed
      ensures ok && !Configures(attrs) ==> template == old(template) && rules == old(rules)
      ensures ok && Configures(attrs) && attrs.value.autoStart && parsed != [] ==>
        !isFinish && drawText == Substitute(attrs.value.template, generated)
        && pending == Scheduled(old(delayMillis))
      ensures ok && !(Configures(attrs) && attrs.value.autoStart && parsed != []) ==>
        isFinish == old(isFinish) && drawText == old(drawText) && pending == old(pending)
    {
      host := view;
      if view == null {
        return false;
      }
      if Configures(attrs) {
        SetTemplate(attrs.value.template, parsed);
        if attrs.value.autoStart {
          var _ := StartTextAnimation(generated);
        }
      }
      view.enabled := isFinish;
      SetDelayMillis(DefaultDelay);
      ok := true;
    }

    method SetDelayMillis(delay: Long)
      modifies this`delayMillis
      ensures delayMillis == delay
    {
      delayMillis := delay;
    }

    /** Replaces the template and the whole rule list: no rule of an earlier call survives. */
    method SetTemplate(t: string, parsed: seq<Rule>)
      modifies this`template, this`rules
      ensures template == t && rules == parsed
    {
      template := t;
      // clear() followed by addAll(parsed)
      rules := parsed;
    }

    /**
     * startTextAnimation(): refuses, changing nothing, when the template or the rule list is
     * empty; otherwise marks the helper running, disables the host, draws a fresh text and
     * replaces any pending tick by one posted after the current delay. The refusal needs no
     * host; starting does.
     */
    method StartTextAnimation(generated: seq<string>) returns (started: bool)
      requires Generated(rules, generated)
      requires template != "" && rules != [] ==> host != null
      modifies this`isFinish, this`drawText, this`pending, Bound()`enabled
      ensures started == (template != "" && rules != [])
      ensures !started ==> (isFinish == old(isFinish) && drawText == old(drawText)
        && pending == old(pending) && (host != null ==> host.enabled == old(host.enabled)))
      ensures started ==> (!isFinish && !host.enabled && pending == Scheduled(delayMillis)
        && drawText == Substitute(template, generated))
    {
      if template == "" || rules == [] {
        return false;
      }
      isFinish := false;
      host.enabled := false;
      drawText := DrawTextRandom(generated);
      // removeCallbacks, then postDelayed: the new tick is the only one pending
      pending := Scheduled(delayMillis);
      started := true;
    }

    /** startTextAnimation(template, rules): setTemplate followed by startTextAnimation(). */
    method StartTextAnimationWith(t: string, parsed: seq<Rule>, generated: seq<string>)
      returns (started: bool)
      requires Generated(parsed, generated)
      requires t != "" && parsed != [] ==> host != null
      modifies this`template, this`rules, this`isFinish, this`drawText, this`pending, Bound()`enabled
      ensures template == t && rules == parsed
      ensures started == (t != "" && parsed != [])
      ensures !started ==> (isFinish == old(isFinish) && drawText == old(drawText)
        && pending == old(pending) && (host != null ==> host.enabled == old(host.enabled)))
      ensures started ==> (!isFinish && !host.enabled && pending == Scheduled(delayMillis)
        && drawText == Substitute(t, generated))
    {
      SetTemplate(t, parsed);
      started := StartTextAnimation(generated);
    }

    /** Marks the helper finished, re-enables the host and shows the host's own text; a pending tick stays. */
    method StopAnimation()
      requires host != null
      modifies this`isFinish, this`drawText, host`enabled
      ensures isFinish && host.enabled && drawText == host.text
    {
      isFinish := true;
      host.enabled := true;
      drawText := host.text;
    }

    /**
     * getDrawTextRandom: each rule's generated string, when non-empty, replaces the first "%s"
     * of the working string. On a template without "%%s", with at least
     * as many rules (of positive length) as placeholders, the result is the template filled
     * left to right and no "%s" is left.
     */
    method DrawTextRandom(generated: seq<string>) returns (text: string)
      requires Generated(rules, generated)
      ensures text == Substitute(template, generated)
      ensures (NoPercentBeforePlaceholder(template) && |rules| >= PlaceholderCount(template)
        && forall k :: 0 <= k < |rules| ==> rules[k].length > 0) ==>
          text == Fill(template, generated) && !HasPlaceholder(text)
    {
      var temp := template;
      for i := 0 to |rules|
        invariant Substitute(temp, generated[i..]) == Substitute(template, generated)
      {
        // the switch on the rule's kind picks the generator; its output is generated[i]
        var s := generated[i];
        assert generated[i..][1..] == generated[i + 1..];
        if s == "" {
          continue;
        }
        temp := ReplaceFirst(temp, s);
      }
      text := temp;
      if NoPercentBeforePlaceholder(template) && |rules| >= PlaceholderCount(template)
        && (forall k :: 0 <= k < |rules| ==> rules[k].length > 0)
      {
        DrawTextFillsTemplate(template, rules, generated);
      }
    }

    /**
     * The tick (mCharacterChange.run) after the queue has taken it off: a finished helper
     * cancels itself and keeps its text; a running one redraws and posts the next tick.
     */
    method RunTick(generated: seq<string>)
      requires host != null && Generated(rules, generated)
      modifies this`drawText, this`pending
      ensures isFinish ==> pending == Idle && drawText == old(drawText)
      ensures !isFinish ==> pending == Scheduled(delayMillis) && drawText == Substitute(template, generated)
    {
      if isFinish {
        // this tick is already off the queue and removeCallbacks finds nothing more
        pending := Idle;
      } else {
        drawText := DrawTextRandom(generated);
        // postDelayed: the next tick is the only one pending
        pending := Scheduled(delayMillis);
      }
    }

    /** Cancels the pending tick; doing it again changes nothing more. */
    method PauseAnimation()
      modifies this`pending
      ensures pending == Idle
    {
      pending := Idle;
    }

    /** Replaces any pending tick by one posted with no delay. */
    method ResumeAnimation()
      modifies this`pending
      ensures pending == Scheduled(0)
    {
      // removeCallbacks, then post
      pending := Scheduled(0);
    }

    /** Chains the animation state onto the parent state; as a side effect the host's enabled flag becomes "finished". */
    method OnSaveInstanceState(superState: Parcelable) returns (state: Parcelable)
      requires host != null
      modifies host`enabled
      ensures state == RandomSaved(superState, drawText, isFinish, delayMillis)
      ensures host.enabled == isFinish
    {
      state := RandomSaved(superState, drawText, isFinish, delayMillis);
      host.enabled := isFinish;
    }

    /** Takes the animation state back and hands on the parent state; any other state passes through untouched. */
    method OnRestoreInstanceState(state: Parcelable) returns (parent: Parcelable)
      modifies this`drawText, this`isFinish, this`delayMillis
      ensures !state.RandomSaved? ==> (parent == state
        && drawText == old(drawText) && isFinish == old(isFinish) && delayMillis == old(delayMillis))
      ensures state.RandomSaved? ==> (parent == state.superState
        && drawText == state.drawText && isFinish == state.isFinish && delayMillis == state.delayMillis)
    {
      if !state.RandomSaved? {
        return state;
      }
      drawText := state.drawText;
      isFinish := state.isFinish;
      delayMillis := state.delayMillis;
      parent := state.superState;
    }
  }

  /**
   * A label recreated from a parcel: the old helper saves its state, the state goes through a
   * parcel, and a new helper restores it. The new helper shows the same text, is finished or
   * running as before, keeps the delay, and the parent state comes back.
   */
  method RecreateThroughParcel(saving: RandomTextHelper, restoring: RandomTextHelper, superState: Parcelable)
    returns (parent: Parcelable)
    requires saving.host != null
    modifies saving.host`enabled, restoring`drawText, restoring`isFinish, restoring`delayMillis
    ensures parent == superState
    ensures restoring.drawText == old(saving.drawText) && restoring.isFinish == old(saving.isFinish)
    ensures restoring.delayMillis == old(saving.delayMillis)
  {
    var saved := saving.OnSaveInstanceState(superState);
    var restored := ParcelRoundTrip(saved);
    parent := restoring.OnRestoreInstanceState(restored);
  }
}
