/**
 * `promptSelection`: ask for a line until its trimmed text is one of the
 * valid options, printing "Invalid selection. Try again." after each line
 * that is not. The terminal is a script of input lines read from a position.
 */
module Prompt {
  import opened Wrappers
  import opened JsText

  /**
   * What a prompt yields: the accepted option, the position of the next
   * unread line and how many lines were rejected on the way; or, when the
   * script ends while the prompt still waits, only the rejections.
   */
  datatype Reply =
    | Selected(selection: string, next: nat, rejected: nat)
    | Exhausted(rejected: nat)

  /** The index of the first line at or after `from` whose trimmed text is valid. */
  function FirstValid(input: seq<string>, from: nat, validOptions: seq<string>): (r: Option<nat>)
    requires from <= |input|
    ensures r.Some? ==> from <= r.value < |input| && Trim(input[r.value]) in validOptions
    decreases |input| - from
  {
    if from == |input| then None
    else if Trim(input[from]) in validOptions then Some(from)
    else FirstValid(input, from + 1, validOptions)
  }

  /** Every line before the first valid one (every line, when none is valid) is invalid. */
  lemma {:induction false} FirstValidRejectsEarlier(input: seq<string>, from: nat, validOptions: seq<string>)
    requires from <= |input|
    ensures var r := FirstValid(input, from, validOptions);
      forall k :: from <= k < (if r.Some? then r.value else |input|) ==> Trim(input[k]) !in validOptions
    decreases |input| - from
  {
    if from < |input| && Trim(input[from]) !in validOptions {
      FirstValidRejectsEarlier(input, from + 1, validOptions);
    }
  }

  /** The reply of a prompt that starts reading at `from`. */
  function Ask(input: seq<string>, from: nat, validOptions: seq<string>): (r: Reply)
    requires from <= |input|
    ensures r.Selected? ==> r.selection in validOptions && from < r.next <= |input|
    ensures r.Selected? ==> r.selection == Trim(input[r.next - 1]) && r.rejected == r.next - 1 - from
    ensures r.Exhausted? ==> r.rejected == |input| - from
  {
    match FirstValid(input, from, validOptions)
    case Some(i) => Selected(Trim(input[i]), i + 1, i - from)
    case None => Exhausted(|input| - from)
  }
  /**
   * Every line the prompt read before the one it accepted (every line, when it
   * accepted none) was rejected, each with its own "Invalid selection" error.
   */
  lemma AskRejectsEarlierLines(input: seq<string>, from: nat, validOptions: seq<string>)
    requires from <= |input|
    ensures var r := Ask(input, from, validOptions);
      forall k :: from <= k < (if r.Selected? then r.next - 1 else |input|) ==> Trim(input[k]) !in validOptions
  {
    FirstValidRejectsEarlier(input, from, validOptions);
  }


  /**
   * The loop of `promptSelection`. The answer is a valid option, it is the
   * first valid line, every line before it was rejected with one error each,
   * and nothing after it is read.
   */
  method PromptSelection(input: seq<string>, from: nat, validOptions: seq<string>) returns (r: Reply)
    requires from <= |input|
    ensures r == Ask(input, from, validOptions)
    ensures r.Selected? ==> r.selection in validOptions && r.selection == Trim(input[r.next - 1])
  {
    var selection: Option<string> := None;  // `let selection;` is undefined, never valid
    var pos := from;
    var rejected := 0;
    var accepted := false;
    while !(selection.Some? && selection.value in validOptions)
      invariant from <= pos <= |input|
      invariant accepted == (selection.Some? && selection.value in validOptions)
      invariant selection.Some? ==> pos > from && selection.value == Trim(input[pos - 1])
      invariant accepted ==> FirstValid(input, from, validOptions) == Some(pos - 1) && rejected == pos - 1 - from
      invariant !accepted ==> FirstValid(input, from, validOptions) == FirstValid(input, pos, validOptions) && rejected == pos - from
      decreases |input| - pos
    {
      if pos == |input| {
        assert FirstValid(input, from, validOptions) == None;
        return Exhausted(rejected);
      }
      selection := Some(Trim(input[pos]));
      accepted := selection.value in validOptions;
      pos := pos + 1;
      if !accepted {
        rejected := rejected + 1;
      }
    }
    assert FirstValid(input, from, validOptions) == Some(pos - 1);
    r := Selected(selection.value, pos, rejected);
  }

  /**
   * A prompt that is answered within a script reads the same lines and gives
   * the same reply when the script goes on further: it never looks past its
   * answer.
   */
  lemma {:induction false} AskIgnoresLaterLines(input: seq<string>, more: seq<string>, from: nat, validOptions: seq<string>)
    requires from <= |input|
    requires Ask(input, from, validOptions).Selected?
    ensures Ask(input + more, from, validOptions) == Ask(input, from, validOptions)
  {
    FirstValidIgnoresLaterLines(input, more, from, validOptions);
  }

  lemma {:induction false} FirstValidIgnoresLaterLines(input: seq<string>, more: seq<string>, from: nat, validOptions: seq<string>)
    requires from <= |input|
    requires FirstValid(input, from, validOptions).Some?
    ensures FirstValid(input + more, from, validOptions) == FirstValid(input, from, validOptions)
    decreases |input| - from
  {
    assert (input + more)[from] == input[from];
    if Trim(input[from]) !in validOptions {
      FirstValidIgnoresLaterLines(input, more, from + 1, validOptions);
    }
  }

  /**
   * A prompt sees only the lines from its starting position on: two scripts
   * that agree from `i` and from `j` on give the same answer after the same
   * number of lines.
   */
  lemma AskShift(a: seq<string>, i: nat, b: seq<string>, j: nat, validOptions: seq<string>)
    requires i <= |a| && j <= |b| && a[i..] == b[j..]
    ensures Ask(a, i, validOptions).Selected? == Ask(b, j, validOptions).Selected?
    ensures Ask(a, i, validOptions).rejected == Ask(b, j, validOptions).rejected
    ensures Ask(a, i, validOptions).Selected? ==>
              Ask(a, i, validOptions).selection == Ask(b, j, validOptions).selection &&
              Ask(a, i, validOptions).next - i == Ask(b, j, validOptions).next - j &&
              a[Ask(a, i, validOptions).next..] == b[Ask(b, j, validOptions).next..]
  {
    FirstValidShift(a, i, b, j, validOptions);
    var r := Ask(a, i, validOptions);
    if r.Selected? {
      var d := r.next - i;
      assert a[i + d..] == a[i..][d..];
      assert b[j + d..] == b[j..][d..];
    }
  }

  lemma {:induction false} FirstValidShift(a: seq<string>, i: nat, b: seq<string>, j: nat, validOptions: seq<string>)
    requires i <= |a| && j <= |b| && a[i..] == b[j..]
    ensures FirstValid(a, i, validOptions).Some? == FirstValid(b, j, validOptions).Some?
    ensures FirstValid(a, i, validOptions).Some? ==>
              FirstValid(a, i, validOptions).value - i == FirstValid(b, j, validOptions).value - j
    ensures FirstValid(a, i, validOptions).None? ==> |a| - i == |b| - j
    decreases |a| - i
  {
    assert |a| - i == |a[i..]| == |b[j..]| == |b| - j;
    if i < |a| {
      assert a[i] == a[i..][0] == b[j..][0] == b[j];
      assert a[i + 1..] == a[i..][1..] == b[j..][1..] == b[j + 1..];
      FirstValidShift(a, i + 1, b, j + 1, validOptions);
    }
  }
}
