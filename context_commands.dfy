/** ContextCommands.py: `AdaCaseSelectionCommand`, which rewrites each line of the first
    selection in Ada case (`some_name` becomes `Some_Name`). Letters are ASCII. */
module ContextCommands {
  import opened Strings

  /** Whether position `k` of the lowered text `t` begins a word: nothing but characters other
      than letters, digits and `_` separate it from the start of the line or from the last
      `_`. */
  predicate StartsWord(t: string, k: nat)
    requires k <= |t|
  {
    if k == 0 then true
    else if t[k - 1] == '_' then true
    else if IsAlnum(t[k - 1]) then false
    else StartsWord(t, k - 1)
  }

  /** The character written for position `k` of the lowered text `t`. */
  function AdaCaseChar(t: string, k: nat): char
    requires k < |t|
  {
    if IsAlnum(t[k]) && StartsWord(t, k) then ToUpper(t[k]) else t[k]
  }

  /** The text the command writes for one line: lowered, then the first letter or digit of
      every word upper-cased. Every character is kept, those other than letters and digits
      unchanged, and letters change case only. */
  function AdaCaseOf(txt: string): (r: string)
    ensures |r| == |txt|
    ensures forall k :: 0 <= k < |txt| && !IsAlnum(txt[k]) ==> r[k] == txt[k]
    ensures forall k :: 0 <= k < |txt| ==> ToLower(r[k]) == ToLower(txt[k])
  {
    var t := Lower(txt);
    seq(|t|, k requires 0 <= k < |t| => AdaCaseChar(t, k))
  }

  /** The loop of `run` over one line. The two flags always hold opposite values, so the
      branch that would drop a letter is never taken. */
  method AdaCase(txt: string) returns (newTxt: string)
    ensures newTxt == AdaCaseOf(txt)
  {
    newTxt := "";
    var t := Lower(txt);
    var upperNext := true;
    var lowerNext := false;
    for i := 0 to |t|
      invariant |newTxt| == i
      invariant forall k :: 0 <= k < i ==> newTxt[k] == AdaCaseChar(t, k)
      invariant upperNext == StartsWord(t, i) && lowerNext == !upperNext
    {
      if t[i] == '_' {
        upperNext := true;
        lowerNext := false;
        newTxt := newTxt + [t[i]];
        continue;
      } else if IsAlnum(t[i]) {
        if upperNext {
          newTxt := newTxt + [ToUpper(t[i])];
        } else if lowerNext {
          newTxt := newTxt + [ToLower(t[i])];
        }
        upperNext := false;
        lowerNext := true;
      } else {
        newTxt := newTxt + [t[i]];
      }
    }
  }

  /** `run`: every line of the first selection replaced by its Ada-cased text. */
  method AdaCaseSelection(lines: seq<string>) returns (replaced: seq<string>)
    ensures |replaced| == |lines|
    ensures forall k :: 0 <= k < |lines| ==> replaced[k] == AdaCaseOf(lines[k])
  {
    replaced := [];
    for i := 0 to |lines|
      invariant |replaced| == i
      invariant forall k :: 0 <= k < i ==> replaced[k] == AdaCaseOf(lines[k])
    {
      var newTxt := AdaCase(lines[i]);
      replaced := replaced + [newTxt];
    }
  }

  /** Lowering the result gives the lowered input back. */
  lemma LowerAdaCase(txt: string)
    ensures Lower(AdaCaseOf(txt)) == Lower(txt)
  {
    var r := AdaCaseOf(txt);
    forall k | 0 <= k < |txt| ensures Lower(r)[k] == Lower(txt)[k] {
      assert ToLower(r[k]) == ToLower(txt[k]);
    }
  }

  /** Applying the command twice writes what applying it once wrote. */
  lemma AdaCaseIdempotent(txt: string)
    ensures AdaCaseOf(AdaCaseOf(txt)) == AdaCaseOf(txt)
  {
    LowerAdaCase(txt);
  }

  /** `foo bar` becomes `Foo bar`: a space does not start a new word. */
  lemma AdaCaseKeepsSpaces()
    ensures AdaCaseOf("foo bar") == "Foo bar"
  {
    var t := Lower("foo bar");
    assert t == "foo bar";
    assert StartsWord(t, 0) && !StartsWord(t, 1) && !StartsWord(t, 2);
    assert !StartsWord(t, 4) && !StartsWord(t, 5) && !StartsWord(t, 6);
  }

  /** `FOO_BAR` becomes `Foo_Bar`: an underscore starts a new word. */
  lemma AdaCaseAtUnderscores()
    ensures AdaCaseOf("FOO_BAR") == "Foo_Bar"
  {
    var t := Lower("FOO_BAR");
    assert t == "foo_bar";
    assert StartsWord(t, 0) && !StartsWord(t, 1) && !StartsWord(t, 2);
    assert StartsWord(t, 4) && !StartsWord(t, 5) && !StartsWord(t, 6);
  }
}
