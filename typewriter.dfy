/**
  The hero title's typewriter effect. The title starts empty; each firing
  of the step callback appends the next character of a fixed name and
  schedules the next firing, until the whole name is written. The delays
  between firings are not modelled, only their order.
 */
module Typing {

  /** The name the effect writes. */
  const HeroName := "Susmita Yadav"

  function Min(a: int, b: int): int {
    if a <= b then a else b
  }

  /** The title text after `steps` firings, built one firing at a time:
      a firing appends the next character while one is left. */
  function Typed(name: string, steps: nat): (t: string)
    ensures t == name[..Min(steps, |name|)]
  {
    if steps == 0 then ""
    else
      var prev := Typed(name, steps - 1);
      if |prev| < |name| then prev + [name[|prev|]] else prev
  }

  /** While characters remain, a firing appends exactly the next one. */
  lemma TypedAppends(name: string, k: nat)
    requires k < |name|
    ensures Typed(name, k + 1) == Typed(name, k) + [name[k]]
  {
  }

  /** From `|name|` firings on the text is the whole name and stays so. */
  lemma TypedStable(name: string, k: nat)
    requires k >= |name|
    ensures Typed(name, k) == name
    ensures Typed(name, k + 1) == Typed(name, k)
  {
  }

  /** The page's name is complete after exactly thirteen firings, and not before. */
  lemma HeroNameTakesThirteen()
    ensures |HeroName| == 13
    ensures Typed(HeroName, 13) == HeroName
    ensures forall k: nat :: k < 13 ==> |Typed(HeroName, k)| == k < |HeroName|
  {
  }

  class Typewriter {
    const name: string
    /** The title element's text. */
    var text: string
    /** Index of the next character to write. */
    var i: nat
    /** How many times the step callback has fired. */
    ghost var steps: nat

    ghost predicate Valid()
      reads this
    {
      i <= |name| && text == name[..i] && text == Typed(name, steps)
    }

    /** initTypewriter: the title is cleared and the index starts at zero. */
    constructor ()
      ensures Valid()
      ensures name == HeroName && text == "" && i == 0 && steps == 0
    {
      name := HeroName;
      text := "";
      i := 0;
      steps := 0;
    }

    /** One firing of the step callback; `rescheduled` says whether it
        scheduled another firing. */
    method Step() returns (rescheduled: bool)
      requires Valid()
      modifies this
      ensures Valid()
      ensures steps == old(steps) + 1
      ensures rescheduled <==> old(i) < |name|
      ensures rescheduled ==> i == old(i) + 1 && text == old(text) + [name[old(i)]]
      ensures !rescheduled ==> i == old(i) && text == old(text)
    {
      steps := steps + 1;
      rescheduled := i < |name|;
      if rescheduled {
        text := text + [name[i]];
        i := i + 1;
      }
    }

    /** The chain of firings started by the initial delay, run until a firing
        schedules no successor: it fires once per remaining character and
        once more to stop, and leaves the whole name written. */
    method RunToEnd()
      requires Valid()
      modifies this
      ensures Valid()
      ensures i == |name| && text == name
      ensures steps == old(steps) + (|name| - old(i)) + 1
    {
      var again := true;
      while again
        invariant Valid()
        invariant again ==> steps == old(steps) + (i - old(i))
        invariant !again ==> i == |name| && steps == old(steps) + (|name| - old(i)) + 1
        invariant old(i) <= i
        decreases 2 * (|name| - i) + (if again then 1 else 0)
      {
        again := Step();
      }
    }
  }

  /** From page load: after the chain the title reads the whole name, having
      fired fourteen times (thirteen characters and the stopping firing). */
  method TypeHeroName() returns (title: string, ghost firings: nat)
    ensures title == HeroName
    ensures firings == 14
  {
    var w := new Typewriter();
    w.RunToEnd();
    title, firings := w.text, w.steps;
  }
}
