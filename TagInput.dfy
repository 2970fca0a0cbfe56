/**
 * The label editor of `components/ui/tag-input.tsx`, used for both tags
 * and recommended dishes. It holds a pending text buffer (`inputValue`)
 * and the committed list of labels (`value`, owned by the parent form,
 * which stores every list handed to `onChange`).
 *
 * The pure transitions over `Editor` are the specification; the class
 * `TagInput` has the component's two pieces of state and a method per
 * handler, each proved to move the state exactly as its transition does.
 */
module TagInput {

  import opened Text
  import opened Seqs

  /** The editor's state: the text being typed and the committed labels. */
  datatype Editor = Editor(input: string, labels: seq<string>)

  /** The keys `handleKeyDown` tells apart; every other key is `OtherKey`. */
  datatype Key = Enter | Comma | Backspace | OtherKey

  /** What the user can do to the editor. */
  datatype Event =
    | KeyDown(key: Key)
    | Blur
    | Typed(text: string)
    | RemoveClicked(index: int)

  /**
   * `value.filter((_, i) => i !== index)`: every element whose position is
   * not `index`, in order. Positions are counted from 0, so a negative or
   * too large `index` matches no position.
   */
  function DropIndex<T>(s: seq<T>, index: int): (r: seq<T>)
    ensures |r| == if 0 <= index < |s| then |s| - 1 else |s|
  {
    if s == [] then []
    else (if index == 0 then [] else [s[0]]) + DropIndex(s[1..], index - 1)
  }

  /** Dropping in-range position `i` removes exactly element `i`; any other index removes nothing. */
  lemma DropIndexIsRemoval<T>(s: seq<T>, index: int)
    ensures DropIndex(s, index) == if 0 <= index < |s| then s[..index] + s[index + 1..] else s
  {
    if 0 <= index < |s| {
      DropIndexInRange(s, index);
    } else {
      DropIndexOutOfRange(s, index);
    }
  }

  lemma {:induction false} DropIndexOutOfRange<T>(s: seq<T>, index: int)
    requires !(0 <= index < |s|)
    ensures DropIndex(s, index) == s
  {
    if s != [] {
      DropIndexOutOfRange(s[1..], index - 1);
      assert DropIndex(s, index) == [s[0]] + DropIndex(s[1..], index - 1);
      assert s == [s[0]] + s[1..];
    }
  }

  lemma {:induction false} DropIndexInRange<T>(s: seq<T>, index: int)
    requires 0 <= index < |s|
    ensures DropIndex(s, index) == s[..index] + s[index + 1..]
  {
    if index == 0 {
      DropIndexOutOfRange(s[1..], -1);
      assert DropIndex(s, 0) == DropIndex(s[1..], -1);
      assert s[..0] + s[1..] == s[1..];
    } else {
      DropIndexInRange(s[1..], index - 1);
      assert DropIndex(s, index) == [s[0]] + DropIndex(s[1..], index - 1);
      RemovalOfTail(s, index);
    }
  }

  /** Removing position `i > 0` is keeping the head and removing position `i - 1` of the tail. */
  lemma RemovalOfTail<T>(s: seq<T>, i: int)
    requires 0 < i < |s|
    ensures s[..i] + s[i + 1..] == [s[0]] + (s[1..][..i - 1] + s[1..][i..])
  {
    assert s[..i] == [s[0]] + s[1..][..i - 1];
    assert s[i + 1..] == s[1..][i..];
  }

  /** `addTag`: commit the trimmed buffer when it is not blank and not yet a label, then clear the buffer. */
  function AddTagStep(e: Editor): (r: Editor)
    ensures r == e || r == Editor("", e.labels + [Trim(e.input)])
    ensures r != e <==> !Blank(e.input) && Trim(e.input) !in e.labels
  {
    var trimmed := Trim(e.input);
    if trimmed != [] && trimmed !in e.labels then
      assert trimmed in e.labels + [trimmed];
      Editor("", e.labels + [trimmed])
    else e
  }

  /** `removeTag(index)`: the buffer is kept and the label at `index`, if any, is dropped. */
  function RemoveTagStep(e: Editor, index: int): (r: Editor)
    ensures r.input == e.input
    ensures r.labels == if 0 <= index < |e.labels| then e.labels[..index] + e.labels[index + 1..] else e.labels
  {
    DropIndexIsRemoval(e.labels, index);
    Editor(e.input, DropIndex(e.labels, index))
  }

  /**
   * `handleKeyDown`: Enter and comma commit the buffer; Backspace on an
   * empty buffer removes the last label; any other key changes nothing
   * here (the character it types arrives through `Typed`).
   */
  function KeyDownStep(e: Editor, key: Key): (r: Editor)
    ensures key == Enter || key == Comma ==> r == AddTagStep(e)
    ensures key == Backspace && e.input == [] && e.labels != [] ==>
      r == Editor(e.input, e.labels[..|e.labels| - 1])
    ensures key == OtherKey || (key == Backspace && (e.input != [] || e.labels == [])) ==> r == e
  {
    match key
    case Enter => AddTagStep(e)
    case Comma => AddTagStep(e)
    case Backspace =>
      if e.input == [] && |e.labels| > 0 then
        assert e.labels[|e.labels| - 1 + 1..] == [];
        RemoveTagStep(e, |e.labels| - 1)
      else e
    case OtherKey => e
  }

  /** `handleBlur`: leaving the field commits the buffer like Enter does. */
  function BlurStep(e: Editor): (r: Editor)
    ensures r == KeyDownStep(e, Enter)
  {
    AddTagStep(e)
  }

  /** The input's `onChange`: the buffer becomes the typed text verbatim; the labels are untouched. */
  function TypeStep(e: Editor, text: string): (r: Editor)
    ensures r.input == text && r.labels == e.labels
  {
    Editor(text, e.labels)
  }

  /** One user event. */
  function Step(e: Editor, ev: Event): Editor
  {
    match ev
    case KeyDown(key) => KeyDownStep(e, key)
    case Blur => BlurStep(e)
    case Typed(text) => TypeStep(e, text)
    case RemoveClicked(index) => RemoveTagStep(e, index)
  }

  /** A sequence of user events, applied in order. */
  function Run(e: Editor, evs: seq<Event>): Editor
    decreases |evs|
  {
    if evs == [] then e else Run(Step(e, evs[0]), evs[1..])
  }

  /** Each committed label is what `trim` leaves of some non-blank text. */
  predicate AllTrimmed(labels: seq<string>) {
    forall l | l in labels :: IsTrimmedLabel(l)
  }

  predicate IsTrimmedLabel(l: string) {
    l != [] && Trim(l) == l
  }

  /** Removing an element from a list without duplicates leaves one without duplicates. */
  lemma RemovalKeepsNoDup<T>(s: seq<T>, i: int)
    requires NoDup(s) && 0 <= i < |s|
    ensures NoDup(s[..i] + s[i + 1..])
  {
    var r := s[..i] + s[i + 1..];
    forall a, b | 0 <= a < b < |r| ensures r[a] != r[b] {
      var a', b' := if a < i then a else a + 1, if b < i then b else b + 1;
      assert r[a] == s[a'] && r[b] == s[b'];
    }
  }

  /** No event creates a duplicate label. */
  lemma StepKeepsNoDup(e: Editor, ev: Event)
    requires NoDup(e.labels)
    ensures NoDup(Step(e, ev).labels)
  {
    var l := e.labels;
    if ev.KeyDown? && ev.key == Backspace && e.input == [] && l != [] {
      RemovalKeepsNoDup(l, |l| - 1);
    } else if ev.RemoveClicked? && 0 <= ev.index < |l| {
      RemovalKeepsNoDup(l, ev.index);
    }
  }

  /** Starting from labels without duplicates, no sequence of events ever produces one. */
  lemma {:induction false} RunKeepsNoDup(e: Editor, evs: seq<Event>)
    requires NoDup(e.labels)
    ensures NoDup(Run(e, evs).labels)
    decreases |evs|
  {
    if evs != [] {
      StepKeepsNoDup(e, evs[0]);
      RunKeepsNoDup(Step(e, evs[0]), evs[1..]);
    }
  }

  /** No event commits a blank or untrimmed label. */
  lemma StepKeepsTrimmed(e: Editor, ev: Event)
    requires AllTrimmed(e.labels)
    ensures AllTrimmed(Step(e, ev).labels)
  {
    match ev
    case KeyDown(key) =>
      if key == Enter || key == Comma { AddTagKeepsTrimmed(e); }
      else if key == Backspace && e.input == [] && e.labels != [] { RemovalKeepsTrimmed(e.labels, |e.labels| - 1); }
    case Blur => AddTagKeepsTrimmed(e);
    case Typed(_) =>
    case RemoveClicked(index) =>
      if 0 <= index < |e.labels| { RemovalKeepsTrimmed(e.labels, index); }
  }

  lemma AddTagKeepsTrimmed(e: Editor)
    requires AllTrimmed(e.labels)
    ensures AllTrimmed(AddTagStep(e).labels)
  {
    if AddTagStep(e) != e {
      var t := Trim(e.input);
      TrimIdempotent(e.input);
      assert IsTrimmedLabel(t);
      assert AddTagStep(e).labels == e.labels + [t];
    }
  }

  lemma RemovalKeepsTrimmed(s: seq<string>, i: int)
    requires AllTrimmed(s) && 0 <= i < |s|
    ensures AllTrimmed(s[..i] + s[i + 1..])
  {
    assert forall l :: l in s[..i] + s[i + 1..] ==> l in s;
  }

  /** Starting from trimmed non-empty labels, every later label is trimmed and non-empty. */
  lemma {:induction false} RunKeepsTrimmed(e: Editor, evs: seq<Event>)
    requires AllTrimmed(e.labels)
    ensures AllTrimmed(Run(e, evs).labels)
    decreases |evs|
  {
    if evs != [] {
      StepKeepsTrimmed(e, evs[0]);
      RunKeepsTrimmed(Step(e, evs[0]), evs[1..]);
    }
  }

  /** Committing twice in a row commits once: the first commit empties the buffer. */
  lemma AddTagIdempotent(e: Editor)
    ensures AddTagStep(AddTagStep(e)) == AddTagStep(e)
  {
    if AddTagStep(e) != e {
      assert AllWhite("");
    }
  }

  /**
   * Typing the same label twice (up to surrounding white space) and
   * committing each time leaves exactly one occurrence of it.
   */
  lemma AddSameLabelTwice(labels: seq<string>, first: string, second: string)
    requires NoDup(labels) && !Blank(first) && Trim(second) == Trim(first)
    ensures multiset(AddTagStep(Editor(second, AddTagStep(Editor(first, labels)).labels)).labels)[Trim(first)] == 1
  {
    var t := Trim(first);
    var e1 := AddTagStep(Editor(first, labels));
    assert t in e1.labels;
    assert AddTagStep(Editor(second, e1.labels)).labels == e1.labels;
    if t in labels {
      assert e1.labels == labels;
      var i :| 0 <= i < |labels| && labels[i] == t;
      CountOnce(labels, i);
    } else {
      assert e1.labels == labels + [t];
      assert multiset(labels + [t])[t] == multiset(labels)[t] + 1;
    }
  }

  /** In a list without duplicates, the element at `i` occurs exactly once. */
  lemma {:induction false} CountOnce<T>(s: seq<T>, i: int)
    requires NoDup(s) && 0 <= i < |s|
    ensures multiset(s)[s[i]] == 1
  {
    assert s == s[..i] + [s[i]] + s[i + 1..];
    assert s[i] !in s[..i] && s[i] !in s[i + 1..] by {
      forall k | 0 <= k < |s| && k != i ensures s[k] != s[i] {}
    }
    assert multiset(s[..i])[s[i]] == 0;
    assert multiset(s[i + 1..])[s[i]] == 0;
  }

  /** Text with no surrounding white space that is not yet a tag is appended as it is. */
  lemma AddTagAppendsNewLabel(labels: seq<string>, tag: string)
    requires tag != [] && !IsWhite(tag[0]) && !IsWhite(tag[|tag| - 1])
    requires tag !in labels
    ensures AddTagStep(Editor(tag, labels)) == Editor("", labels + [tag])
  {
    TrimKeepsTrimmed(tag);
  }

  /** The duplicate test is exact: a tag differing from a committed one only in letter case is added. */
  lemma DuplicateTestIsCaseSensitive()
    ensures AddTagStep(Editor("Spicy", ["spicy"])) == Editor("", ["spicy", "Spicy"])
  {
    var tag := "Spicy";
    assert tag[0] == 'S' && tag[|tag| - 1] == 'y';
    assert tag != "spicy" by { assert tag[0] != "spicy"[0]; }
    AddTagAppendsNewLabel(["spicy"], tag);
    assert ["spicy"] + [tag] == ["spicy", "Spicy"];
  }

  /** The component's state and its handlers. */
  class TagInput {
    var inputValue: string
    var value: seq<string>

    /** The state as an `Editor` value. */
    function State(): Editor
      reads this
    {
      Editor(inputValue, value)
    }

    /** A fresh editor: an empty buffer over the labels the parent passes in. */
    constructor (initial: seq<string>)
      ensures State() == Editor("", initial)
    {
      inputValue := "";
      value := initial;
    }

    method AddTag()
      modifies this
      ensures State() == AddTagStep(old(State()))
    {
      var trimmedValue := Trim(inputValue);
      if trimmedValue != [] && trimmedValue !in value {
        value := value + [trimmedValue];
        inputValue := "";
      }
    }

    method RemoveTag(index: int)
      modifies this`value
      ensures State() == RemoveTagStep(old(State()), index)
    {
      value := DropIndex(value, index);
    }

    method HandleKeyDown(key: Key)
      modifies this
      ensures State() == KeyDownStep(old(State()), key)
    {
      if key == Enter || key == Comma {
        AddTag();
      } else if key == Backspace && inputValue == [] && |value| > 0 {
        RemoveTag(|value| - 1);
      }
    }

    method HandleBlur()
      modifies this
      ensures State() == BlurStep(old(State()))
    {
      AddTag();
    }

    method HandleChange(text: string)
      modifies this`inputValue
      ensures State() == TypeStep(old(State()), text)
    {
      inputValue := text;
    }
  }
}
