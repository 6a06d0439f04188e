/** The text transformation of ProjectService.ReplaceInFile: string.Replace
    over the whole text of one file. */
module TextReplace {
  import opened Wrappers
  import opened Strings

  /** `t` occurs somewhere in `s[1..]` only if it occurs in `s`. */
  lemma ContainsTail(s: string, t: string)
    requires s != []
    ensures Contains(s[1..], t) ==> Contains(s, t)
  {
    if Contains(s[1..], t) {
      var i :| 0 <= i <= |s[1..]| - |t| && StartsWith(s[1..][i..], t);
      assert s[1..][i..] == s[i + 1..];
    }
  }

  /** string.Replace(oldValue, newValue) with ordinal comparison: every
      leftmost, non-overlapping occurrence of `oldValue` becomes `newValue`. */
  function Replace(text: string, oldValue: string, newValue: string): string
    requires oldValue != ""
    decreases |text|
  {
    if |text| < |oldValue| then
      text
    else if StartsWith(text, oldValue) then
      newValue + Replace(text[|oldValue|..], oldValue, newValue)
    else
      [text[0]] + Replace(text[1..], oldValue, newValue)
  }

  /** A text in which `oldValue` does not occur is left as it is. */
  lemma {:induction false} ReplaceWithoutOccurrence(text: string, oldValue: string, newValue: string)
    requires oldValue != ""
    ensures !Contains(text, oldValue) ==> Replace(text, oldValue, newValue) == text
    decreases |text|
  {
    if |text| >= |oldValue| && !Contains(text, oldValue) {
      assert !StartsWith(text[0..], oldValue);
      assert text[0..] == text;
      ContainsTail(text, oldValue);
      ReplaceWithoutOccurrence(text[1..], oldValue, newValue);
      assert [text[0]] + text[1..] == text;
    }
  }

  /** A text that does not start with `oldValue` keeps its first character. */
  lemma ReplaceSkipsFirst(text: string, oldValue: string, newValue: string)
    requires oldValue != "" && text != [] && !StartsWith(text, oldValue)
    ensures Replace(text, oldValue, newValue) == [text[0]] + Replace(text[1..], oldValue, newValue)
  {
    if |text| < |oldValue| {
      assert [text[0]] + text[1..] == text;
    }
  }

  /** No occurrence in the first `n` positions of `text` means none in the
      first `n - 1` positions of `text[1..]`. */
  lemma NoOccurrenceInTail(text: string, t: string, n: int)
    requires 0 < n <= |text|
    requires forall j :: 0 <= j < n ==> !OccursAt(text, t, j)
    ensures forall j :: 0 <= j < n - 1 ==> !OccursAt(text[1..], t, j)
  {
    forall j | 0 <= j < n - 1
      ensures !OccursAt(text[1..], t, j)
    {
      assert !OccursAt(text, t, j + 1);
      assert text[1..][j..] == text[j + 1..];
    }
  }

  /** An occurrence at position 0 is a prefix. */
  lemma OccursAtStart(s: string, t: string)
    ensures OccursAt(s, t, 0) <==> StartsWith(s, t)
  {
    assert s[0..] == s;
  }

  /** A text that starts with `oldValue` has it replaced there first. */
  lemma ReplaceAtStart(oldValue: string, s: string, newValue: string)
    requires oldValue != ""
    ensures Replace(oldValue + s, oldValue, newValue) == newValue + Replace(s, oldValue, newValue)
  {
    var text := oldValue + s;
    assert text[..|oldValue|] == oldValue;
    assert text[|oldValue|..] == s;
  }

  /** The leftmost occurrence is replaced first and the scan resumes after
      it, so occurrences never overlap: when `oldValue` first occurs right
      after `p`, the result is `p`, then `newValue`, then the rest replaced. */
  lemma {:induction false} ReplaceLeftmost(p: string, s: string, oldValue: string, newValue: string)
    requires oldValue != ""
    requires forall j :: 0 <= j < |p| ==> !OccursAt(p + oldValue + s, oldValue, j)
    ensures Replace(p + oldValue + s, oldValue, newValue) == p + newValue + Replace(s, oldValue, newValue)
    decreases |p|
  {
    if p == [] {
      assert p + oldValue + s == oldValue + s;
      ReplaceAtStart(oldValue, s, newValue);
    } else {
      TailHasNoEarlyOccurrence(p, s, oldValue);
      ReplaceLeftmost(p[1..], s, oldValue, newValue);
      ReplaceLeftmostStep(p, s, oldValue, newValue);
    }
  }

  /** The precondition of ReplaceLeftmost carries over from `p` to `p[1..]`. */
  lemma TailHasNoEarlyOccurrence(p: string, s: string, oldValue: string)
    requires p != []
    requires forall j :: 0 <= j < |p| ==> !OccursAt(p + oldValue + s, oldValue, j)
    ensures forall j :: 0 <= j < |p[1..]| ==> !OccursAt(p[1..] + oldValue + s, oldValue, j)
  {
    var text := p + oldValue + s;
    NoOccurrenceInTail(text, oldValue, |p|);
    assert text[1..] == p[1..] + oldValue + s;
  }

  /** One step of ReplaceLeftmost: the first character of `p` is kept. */
  lemma ReplaceLeftmostStep(p: string, s: string, oldValue: string, newValue: string)
    requires oldValue != "" && p != []
    requires !OccursAt(p + oldValue + s, oldValue, 0)
    requires Replace(p[1..] + oldValue + s, oldValue, newValue) == p[1..] + newValue + Replace(s, oldValue, newValue)
    ensures Replace(p + oldValue + s, oldValue, newValue) == p + newValue + Replace(s, oldValue, newValue)
  {
    var text, q := p + oldValue + s, p[1..] + oldValue + s;
    OccursAtStart(text, oldValue);
    ReplaceSkipsFirst(text, oldValue, newValue);
    assert text[1..] == q;
    assert [p[0]] + p[1..] == p;
    calc {
      Replace(text, oldValue, newValue);
      [text[0]] + Replace(q, oldValue, newValue);
      [p[0]] + (p[1..] + newValue + Replace(s, oldValue, newValue));
      p + newValue + Replace(s, oldValue, newValue);
    }
  }

  /** Replacing a value by itself leaves the text as it was. */
  lemma {:induction false} ReplaceBySameValue(text: string, value: string)
    requires value != ""
    ensures Replace(text, value, value) == text
    decreases |text|
  {
    if |text| < |value| {
    } else if StartsWith(text, value) {
      ReplaceBySameValue(text[|value|..], value);
      assert value + text[|value|..] == text;
    } else {
      ReplaceBySameValue(text[1..], value);
      assert [text[0]] + text[1..] == text;
    }
  }

  /** ReplaceInFile: a missing file (`None`) is left alone; otherwise its
      text is replaced and written back. An empty `oldValue` makes
      string.Replace throw, and nothing is written. */
  function ReplaceInFile(file: Option<string>, oldValue: string, newValue: string): (r: Result<Option<string>, Exception>)
    ensures file.None? ==> r == Success(None)
    ensures file.Some? && oldValue == "" ==> r == Failure(EmptyOldValue)
    ensures file.Some? && oldValue != "" && !Contains(file.value, oldValue) ==> r == Success(file)
    ensures file.Some? && oldValue != "" ==> r.Success? && r.value.Some?
  {
    match file
    case None => Success(None)
    case Some(text) =>
      if oldValue == "" then Failure(EmptyOldValue)
      else
        ReplaceWithoutOccurrence(text, oldValue, newValue);
        Success(Some(Replace(text, oldValue, newValue)))
  }
}
