/** The text-scanning completion builder and its cache (parser.py). The regular
    expressions that find procedure and type declarations are not modelled: their
    matches arrive as `ProcMatch` and `TypeMatch` records, in match order. */
module Parser {
  import opened Base
  import opened Strings

  // ---------------------------------------------------------------------------
  // Which commas split a parameter list: the pattern `,(?![^(]*\))`.

  /** Reading `s` from index `j` on, a `)` turns up before any `(`. */
  predicate CloseBeforeOpen(s: string, j: nat)
    decreases |s| - j
  {
    j < |s| && s[j] != '(' && (s[j] == ')' || CloseBeforeOpen(s, j + 1))
  }

  /** The comma at `i` separates two parameters: no `)` follows it before the next `(`. */
  predicate IsSplitComma(s: string, i: nat) {
    i < |s| && s[i] == ',' && !CloseBeforeOpen(s, i + 1)
  }

  /** The split commas of `s` at index `from` or later. */
  function SplitCommasFrom(s: string, from: nat): seq<nat>
    decreases |s| - from
  {
    if from >= |s| then []
    else (if IsSplitComma(s, from) then [from] else []) + SplitCommasFrom(s, from + 1)
  }

  /** `r` lists exactly the split commas of `s` from `from` on, in increasing order. */
  predicate ListsSplitCommas(s: string, from: nat, r: seq<nat>) {
    && (forall k :: 0 <= k < |r| ==> from <= r[k] < |s| && IsSplitComma(s, r[k]))
    && (forall i :: from <= i < |s| && IsSplitComma(s, i) ==> i in r)
    && (forall k, l :: 0 <= k < l < |r| ==> r[k] < r[l])
  }

  /** Every position `SplitCommasFrom` lists is a split comma at or after `from`. */
  lemma {:induction false} SplitCommasSound(s: string, from: nat)
    ensures forall k :: 0 <= k < |SplitCommasFrom(s, from)| ==>
      from <= SplitCommasFrom(s, from)[k] < |s| && IsSplitComma(s, SplitCommasFrom(s, from)[k])
    decreases |s| - from
  {
    if from < |s| {
      SplitCommasSound(s, from + 1);
      var rest := SplitCommasFrom(s, from + 1);
      if IsSplitComma(s, from) {
        var r := [from] + rest;
        assert SplitCommasFrom(s, from) == r;
        forall k | 0 < k < |r| ensures from <= r[k] < |s| && IsSplitComma(s, r[k]) {
          assert r[k] == rest[k - 1];
        }
      } else {
        assert SplitCommasFrom(s, from) == rest;
      }
    }
  }

  /** `SplitCommasFrom` misses no split comma at or after `from`. */
  lemma {:induction false} SplitCommasComplete(s: string, from: nat)
    ensures forall i :: from <= i < |s| && IsSplitComma(s, i) ==> i in SplitCommasFrom(s, from)
    decreases |s| - from
  {
    if from < |s| {
      SplitCommasComplete(s, from + 1);
      var rest := SplitCommasFrom(s, from + 1);
      if IsSplitComma(s, from) {
        assert SplitCommasFrom(s, from) == [from] + rest;
      } else {
        assert SplitCommasFrom(s, from) == rest;
      }
    }
  }

  /** `SplitCommasFrom` lists positions in increasing order. */
  lemma {:induction false} SplitCommasSorted(s: string, from: nat)
    ensures forall k, l :: 0 <= k < l < |SplitCommasFrom(s, from)| ==>
      SplitCommasFrom(s, from)[k] < SplitCommasFrom(s, from)[l]
    decreases |s| - from
  {
    if from < |s| {
      SplitCommasSorted(s, from + 1);
      SplitCommasSound(s, from + 1);
      var rest := SplitCommasFrom(s, from + 1);
      if IsSplitComma(s, from) {
        var r := [from] + rest;
        assert SplitCommasFrom(s, from) == r;
        forall k, l | 0 <= k < l < |r| ensures r[k] < r[l] {
          assert r[l] == rest[l - 1];
          if k > 0 { assert r[k] == rest[k - 1]; }
        }
      } else {
        assert SplitCommasFrom(s, from) == rest;
      }
    }
  }

  /** `SplitCommasFrom` finds every split comma, once, in order. */
  lemma SplitCommasFromSpec(s: string, from: nat)
    ensures ListsSplitCommas(s, from, SplitCommasFrom(s, from))
  {
    SplitCommasSound(s, from);
    SplitCommasComplete(s, from);
    SplitCommasSorted(s, from);
  }

  /** The positions the parser splits a parameter list at. */
  function SplitCommas(s: string): seq<nat> {
    SplitCommasFrom(s, 0)
  }

  /** The split commas, as a list of positions ready to cut at. */
  lemma SplitCommasValid(s: string)
    ensures ValidCuts(s, SplitCommas(s))
    ensures forall k :: 0 <= k < |SplitCommas(s)| ==> s[SplitCommas(s)[k]] == ','
  {
    SplitCommasFromSpec(s, 0);
  }

  /** `cuts` are increasing positions inside `s`. */
  predicate ValidCuts(s: string, cuts: seq<nat>) {
    && (forall k :: 0 <= k < |cuts| ==> cuts[k] < |s|)
    && (forall k, l :: 0 <= k < l < |cuts| ==> cuts[k] < cuts[l])
  }

  /** The `k`-th stretch of `s` when it is cut at `cuts`, the cut characters excluded. */
  function Piece(s: string, cuts: seq<nat>, k: nat): string
    requires k <= |cuts|
  {
    var start := if k == 0 then 0 else cuts[k - 1] + 1;
    var end := if k < |cuts| then cuts[k] else |s|;
    Slice(s, start, end)
  }

  /** All the stretches of `s` between the cuts. */
  function Pieces(s: string, cuts: seq<nat>): (r: seq<string>)
    ensures |r| == |cuts| + 1
  {
    seq(|cuts| + 1, k requires 0 <= k <= |cuts| => Piece(s, cuts, k))
  }

  /** The parameters of an already stripped parameter list: with split commas, every
      stretch between them stripped; without, the whole text, or nothing when it is empty. */
  function ParamsOf(paramStr: string): seq<string> {
    var cuts := SplitCommas(paramStr);
    if |cuts| > 0 then StrippedPieces(paramStr, cuts, |cuts| + 1)
    else if |paramStr| > 0 then [paramStr]
    else []
  }

  /** The first `n` stretches of `s` between the cuts, each stripped. */
  function StrippedPieces(s: string, cuts: seq<nat>, n: nat): seq<string>
    requires n <= |cuts| + 1
  {
    if n == 0 then [] else StrippedPieces(s, cuts, n - 1) + [Strip(Piece(s, cuts, n - 1))]
  }

  /** The commas the parser finds, collected left to right as `finditer` yields them. */
  method FindSplitCommas(s: string) returns (commas: seq<nat>)
    ensures commas == SplitCommas(s)
  {
    commas := [];
    var i := 0;
    while i < |s|
      invariant 0 <= i <= |s|
      invariant commas + SplitCommasFrom(s, i) == SplitCommas(s)
    {
      ghost var rest := SplitCommasFrom(s, i + 1);
      if IsSplitComma(s, i) {
        assert SplitCommasFrom(s, i) == [i] + rest;
        assert commas + [i] + rest == commas + ([i] + rest);
        commas := commas + [i];
      } else {
        assert SplitCommasFrom(s, i) == rest;
      }
      i := i + 1;
    }
  }

  /** Splits a stripped parameter list as `get_completions_from_file` does. */
  method SplitParams(paramStr: string) returns (params: seq<string>)
    ensures params == ParamsOf(paramStr)
  {
    var commas := FindSplitCommas(paramStr);
    params := [];
    if |commas| > 0 {
      ghost var cuts := commas;
      commas := commas + [|paramStr|];
      for i := 0 to |commas|
        invariant params == StrippedPieces(paramStr, cuts, i)
      {
        var start := if i > 0 then commas[i - 1] + 1 else 0;
        var end := commas[i];
        SplitParamsStep(paramStr, i, params);
        params := params + [Strip(paramStr[start..end])];
      }
    } else if |paramStr| > 0 {
      params := [paramStr];
    }
  }

  /** With the end of the text appended to the split commas, as `get_completions_from_file`
      does, the text between entry `i - 1` (or the start) and entry `i`, stripped, is the
      next parameter. */
  lemma SplitParamsStep(s: string, i: nat, params: seq<string>)
    requires i <= |SplitCommas(s)| && params == StrippedPieces(s, SplitCommas(s), i)
    ensures var bounds := SplitCommas(s) + [|s|];
      var start := if i > 0 then bounds[i - 1] + 1 else 0;
      start <= bounds[i] <= |s| &&
      params + [Strip(s[start..bounds[i]])] == StrippedPieces(s, SplitCommas(s), i + 1)
  {
    SplitCommasValid(s);
  }

  /** The stretches between split commas, joined back with commas, give the text again:
      splitting loses no character except the split commas themselves. */
  lemma PiecesRejoin(s: string)
    ensures Join(",", Pieces(s, SplitCommas(s))) == s
  {
    SplitCommasValid(s);
    var cuts := SplitCommas(s);
    var ps := Pieces(s, cuts);
    PiecesRejoinUpTo(s, cuts, |cuts|);
    assert ps[..|cuts| + 1] == ps;
  }

  lemma {:induction false} PiecesRejoinUpTo(s: string, cuts: seq<nat>, m: nat)
    requires ValidCuts(s, cuts) && m <= |cuts|
    requires forall k :: 0 <= k < |cuts| ==> s[cuts[k]] == ','
    ensures Join(",", Pieces(s, cuts)[..m + 1]) == s[..if m < |cuts| then cuts[m] else |s|]
  {
    var ps := Pieces(s, cuts);
    if m == 0 {
      assert ps[..1] == [ps[0]];
    } else {
      PiecesRejoinUpTo(s, cuts, m - 1);
      assert ps[..m + 1] == ps[..m] + [ps[m]];
      JoinSnoc(",", ps[..m], ps[m]);
      var end := if m < |cuts| then cuts[m] else |s|;
      assert s[..end] == s[..cuts[m - 1]] + "," + s[cuts[m - 1] + 1..end];
    }
  }

  /** Between `j` and the `)` at `c`, with no parenthesis in between, a `)` comes first. */
  lemma {:induction false} CloseReachable(s: string, j: nat, c: nat)
    requires j <= c < |s| && s[c] == ')'
    requires forall k :: j <= k < c ==> s[k] != '(' && s[k] != ')'
    ensures CloseBeforeOpen(s, j)
    decreases c - j
  {
    if j < c { CloseReachable(s, j + 1, c); }
  }

  /** A comma inside a parenthesised group that holds no further parentheses, such as the
      parameter list of a procedure-typed parameter, never splits. */
  lemma NoSplitInsideParens(p: string, q: string, r: string)
    requires forall i :: 0 <= i < |q| ==> q[i] != '(' && q[i] != ')'
    ensures forall i :: |p| + 1 <= i < |p| + 1 + |q| ==> !IsSplitComma(p + "(" + q + ")" + r, i)
  {
    var s := p + "(" + q + ")" + r;
    var c := |p| + 1 + |q|;
    assert s[c] == ')';
    forall i | |p| + 1 <= i < c ensures !IsSplitComma(s, i) {
      forall k | i + 1 <= k < c ensures s[k] != '(' && s[k] != ')' {
        assert s[k] == q[k - |p| - 1];
      }
      CloseReachable(s, i + 1, c);
    }
  }

  /** A parameter list whose only commas sit inside such a group, as in
      `cb: proc(x: int, y: int)`, is one parameter. */
  lemma ProcTypedParamIsOne(p: string, q: string, r: string)
    requires forall i :: 0 <= i < |q| ==> q[i] != '(' && q[i] != ')'
    requires forall i :: 0 <= i < |p| ==> p[i] != ','
    requires forall i :: 0 <= i < |r| ==> r[i] != ','
    ensures ParamsOf(p + "(" + q + ")" + r) == [p + "(" + q + ")" + r]
  {
    var s := p + "(" + q + ")" + r;
    NoSplitInsideParens(p, q, r);
    forall i | 0 <= i < |s| ensures !IsSplitComma(s, i) {
      if i < |p| { assert s[i] == p[i]; }
      else if |p| + 1 + |q| < i { assert s[i] == r[i - |p| - 2 - |q|]; }
    }
    SplitCommasFromSpec(s, 0);
  }

  // ---------------------------------------------------------------------------
  // Completion text for a procedure.

  /** The editor placeholder numbered `index` that pre-fills `param`. */
  function Placeholder(index: nat, param: string): string {
    "${" + NatToString(index) + ":" + param + "}"
  }

  /** One placeholder per parameter, numbered left to right from 1. */
  function Placeholders(params: seq<string>): (r: seq<string>)
    ensures |r| == |params|
  {
    if |params| == 0 then []
    else Placeholders(params[..|params| - 1]) + [Placeholder(|params|, params[|params| - 1])]
  }

  /** The placeholder at position `i` is numbered `i + 1` and pre-fills parameter `i`. */
  lemma {:induction false} PlaceholdersAt(params: seq<string>)
    ensures forall i :: 0 <= i < |params| ==> Placeholders(params)[i] == Placeholder(i + 1, params[i])
  {
    if |params| > 0 {
      var init := params[..|params| - 1];
      PlaceholdersAt(init);
      var r := Placeholders(params);
      assert r == Placeholders(init) + [Placeholder(|params|, params[|params| - 1])];
      forall i | 0 <= i < |params| - 1 ensures r[i] == Placeholder(i + 1, params[i]) {
        assert params[i] == init[i];
      }
    }
  }

  function ReturnSuffix(returnType: Option<string>): string {
    match returnType
    case None => ""
    case Some(t) => " -> " + t
  }

  /** The label: `name(p1, p2) -> R`, a tab, a space and the file or package name. */
  function ProcTrigger(name: string, params: seq<string>, returnType: Option<string>, fileName: string): string {
    name + "(" + Join(", ", params) + ")" + ReturnSuffix(returnType) + "\t " + fileName
  }

  /** The inserted text: `name(${1:p1}, ${2:p2})`. */
  function ProcInsertText(name: string, params: seq<string>): string {
    name + "(" + Join(", ", Placeholders(params)) + ")"
  }

  /** `make_completion_from_proc_components`: builds label and insert text side by side. */
  method MakeProcCompletion(procName: string, params: seq<string>, returnType: Option<string>, fileName: string)
    returns (c: Completion)
    ensures c == Completion(ProcTrigger(procName, params, returnType, fileName), ProcInsertText(procName, params))
    ensures |params| == 0 ==> c.insertText == procName + "()"
  {
    var trigger := procName + "(";
    var result := procName + "(";
    if |params| > 0 {
      for p := 0 to |params|
        invariant trigger == procName + "(" + Join(", ", params[..p])
        invariant result == procName + "(" + Join(", ", Placeholders(params[..p]))
      {
        ghost var holders := Placeholders(params[..p]);
        var holder := Placeholder(p + 1, params[p]);
        assert params[..p + 1] == params[..p] + [params[p]];
        assert params[..p + 1][..p] == params[..p];
        assert Placeholders(params[..p + 1]) == holders + [holder];
        JoinExtend(procName + "(", ", ", params[..p], params[p]);
        JoinExtend(procName + "(", ", ", holders, holder);
        if p > 0 {
          trigger := trigger + ", ";
          result := result + ", ";
        }
        trigger := trigger + params[p];
        result := result + holder;
      }
      assert params[..|params|] == params;
    }
    trigger := trigger + ")";
    result := result + ")";
    trigger := trigger + ReturnSuffix(returnType);
    trigger := trigger + "\t " + fileName;
    c := Completion(trigger, result);
  }

  /** One more part, written after `prefix` and the parts so far, as the loop above writes it. */
  lemma JoinExtend(prefix: string, sep: string, parts: seq<string>, x: string)
    ensures (if |parts| > 0 then prefix + Join(sep, parts) + sep else prefix + Join(sep, parts)) + x
      == prefix + Join(sep, parts + [x])
  {
    if |parts| > 0 {
      JoinSnoc(sep, parts, x);
      assert prefix + Join(sep, parts) + sep + x == prefix + (Join(sep, parts) + sep + x);
    } else {
      assert parts + [x] == [x];
    }
  }

  /** Open minus close parentheses. */
  function Balance(s: string): int {
    Count(s, '(') - Count(s, ')')
  }

  lemma BalanceConcat(a: string, b: string)
    ensures Balance(a + b) == Balance(a) + Balance(b)
  {
    CountConcat(a, b, '(');
    CountConcat(a, b, ')');
  }

  lemma {:induction false} JoinBalance(sep: string, xs: seq<string>, ys: seq<string>)
    requires |xs| == |ys|
    requires forall i :: 0 <= i < |xs| ==> Balance(xs[i]) == Balance(ys[i])
    ensures Balance(Join(sep, xs)) == Balance(Join(sep, ys))
  {
    if |xs| > 1 {
      JoinBalance(sep, xs[1..], ys[1..]);
      BalanceConcat(xs[0] + sep, Join(sep, xs[1..]));
      BalanceConcat(ys[0] + sep, Join(sep, ys[1..]));
      BalanceConcat(xs[0], sep);
      BalanceConcat(ys[0], sep);
    }
  }

  lemma DigitsBalance(n: nat)
    ensures Balance(NatToString(n)) == 0
  {
    var d := NatToString(n);
    CountAbsent(d, '(');
    CountAbsent(d, ')');
  }

  /** Placeholders add no parentheses: the inserted text is as balanced as the label's
      `name(params)` part, so an unbalanced insertion only comes from an unbalanced label. */
  lemma InsertTextBalance(name: string, params: seq<string>)
    ensures Balance(ProcInsertText(name, params)) == Balance(name + "(" + Join(", ", params) + ")")
  {
    var holders := Placeholders(params);
    PlaceholdersAt(params);
    forall i | 0 <= i < |params| ensures Balance(holders[i]) == Balance(params[i]) {
      var n := NatToString(i + 1);
      DigitsBalance(i + 1);
      BalanceConcat("${" + n + ":", params[i]);
      BalanceConcat("${" + n, ":");
      BalanceConcat("${", n);
      BalanceConcat("${" + n + ":" + params[i], "}");
      assert Balance("${") == 0 && Balance(":") == 0 && Balance("}") == 0;
    }
    JoinBalance(", ", holders, params);
    BalanceConcat(name + "(" + Join(", ", holders), ")");
    BalanceConcat(name + "(", Join(", ", holders));
    BalanceConcat(name + "(" + Join(", ", params), ")");
    BalanceConcat(name + "(", Join(", ", params));
  }

  // ---------------------------------------------------------------------------
  // Whole-file completion list.

  /** The captures of one type declaration: its name and keyword (`struct`, `enum`, ...). */
  datatype TypeMatch = TypeMatch(name: string, keyword: string)

  /** The captures of one procedure declaration: name, raw parameter text and raw
      return-type text (empty when the declaration has none). */
  datatype ProcMatch = ProcMatch(name: string, params: string, returnType: string)

  /** `[name + '\t' + keyword + ' ' + package, name]`. */
  function TypeCompletion(packageOrFilename: string, m: TypeMatch): Completion {
    Completion(m.name + "\t" + m.keyword + " " + packageOrFilename, m.name)
  }

  /** The return type: absent when the captured text is blank, else the text stripped. */
  function ReturnTypeOf(raw: string): (r: Option<string>)
    ensures r.None? <==> forall i :: 0 <= i < |raw| ==> IsSpace(raw[i])
    ensures r.Some? ==> |r.value| > 0 && !IsSpace(r.value[0]) && !IsSpace(r.value[|r.value| - 1])
  {
    StripSpec(raw);
    var t := Strip(raw);
    if |t| == 0 then None else Some(t)
  }

  /** The completion `get_completions_from_file` makes for one procedure match. */
  function ProcCompletionOf(packageOrFilename: string, m: ProcMatch): Completion {
    var params := ParamsOf(Strip(m.params));
    Completion(ProcTrigger(m.name, params, ReturnTypeOf(m.returnType), packageOrFilename),
               ProcInsertText(m.name, params))
  }

  /** The type completions of a file, one per match, in match order. */
  function TypeCompletionsOf(packageOrFilename: string, types: seq<TypeMatch>): seq<Completion> {
    if |types| == 0 then []
    else TypeCompletionsOf(packageOrFilename, types[..|types| - 1]) + [TypeCompletion(packageOrFilename, types[|types| - 1])]
  }

  /** Each type match gives exactly one completion, at its own position. */
  lemma {:induction false} TypeCompletionsAt(packageOrFilename: string, types: seq<TypeMatch>)
    ensures |TypeCompletionsOf(packageOrFilename, types)| == |types|
    ensures forall i :: 0 <= i < |types| ==>
      TypeCompletionsOf(packageOrFilename, types)[i] == TypeCompletion(packageOrFilename, types[i])
  {
    if |types| > 0 {
      var init := types[..|types| - 1];
      TypeCompletionsAt(packageOrFilename, init);
      var last := TypeCompletion(packageOrFilename, types[|types| - 1]);
      var prev := TypeCompletionsOf(packageOrFilename, init);
      assert TypeCompletionsOf(packageOrFilename, types) == prev + [last];
      forall i | 0 <= i < |types| - 1 ensures (prev + [last])[i] == TypeCompletion(packageOrFilename, types[i]) {
        assert types[i] == init[i];
      }
    }
  }

  /** `get_type_completions`. */
  method TypeCompletions(packageOrFilename: string, types: seq<TypeMatch>) returns (completions: seq<Completion>)
    ensures completions == TypeCompletionsOf(packageOrFilename, types)
  {
    completions := [];
    for i := 0 to |types|
      invariant completions == TypeCompletionsOf(packageOrFilename, types[..i])
    {
      assert types[..i + 1][..i] == types[..i];
      completions := completions + [TypeCompletion(packageOrFilename, types[i])];
    }
    assert types[..|types|] == types;
  }

  /** The procedure completions of a file, one per match, in match order. */
  function ProcCompletionsOf(packageOrFilename: string, procs: seq<ProcMatch>): seq<Completion> {
    if |procs| == 0 then []
    else ProcCompletionsOf(packageOrFilename, procs[..|procs| - 1]) + [ProcCompletionOf(packageOrFilename, procs[|procs| - 1])]
  }

  /** Each procedure match gives exactly one completion, at its own position. */
  lemma {:induction false} ProcCompletionsAt(packageOrFilename: string, procs: seq<ProcMatch>)
    ensures |ProcCompletionsOf(packageOrFilename, procs)| == |procs|
    ensures forall i :: 0 <= i < |procs| ==>
      ProcCompletionsOf(packageOrFilename, procs)[i] == ProcCompletionOf(packageOrFilename, procs[i])
  {
    if |procs| > 0 {
      var init := procs[..|procs| - 1];
      ProcCompletionsAt(packageOrFilename, init);
      var last := ProcCompletionOf(packageOrFilename, procs[|procs| - 1]);
      var prev := ProcCompletionsOf(packageOrFilename, init);
      assert ProcCompletionsOf(packageOrFilename, procs) == prev + [last];
      forall i | 0 <= i < |procs| - 1 ensures (prev + [last])[i] == ProcCompletionOf(packageOrFilename, procs[i]) {
        assert procs[i] == init[i];
      }
    }
  }

  lemma ProcCompletionsSnoc(packageOrFilename: string, procs: seq<ProcMatch>, i: nat)
    requires i < |procs|
    ensures ProcCompletionsOf(packageOrFilename, procs[..i + 1])
      == ProcCompletionsOf(packageOrFilename, procs[..i]) + [ProcCompletionOf(packageOrFilename, procs[i])]
  {
    assert procs[..i + 1][..i] == procs[..i];
  }

  lemma AppendAssoc<T>(a: seq<T>, b: seq<T>, c: seq<T>)
    ensures a + b + c == a + (b + c)
  {
  }

  /** The body of the procedure loop of `get_completions_from_file`, for one match. */
  method ProcCompletion(packageOrFilename: string, m: ProcMatch) returns (c: Completion)
    ensures c == ProcCompletionOf(packageOrFilename, m)
  {
    var paramStr := Strip(m.params);
    var retval := ReturnTypeOf(m.returnType);
    var params := SplitParams(paramStr);
    c := MakeProcCompletion(m.name, params, retval, packageOrFilename);
  }

  /** `get_completions_from_file`: the type completions, then one completion per procedure
      match, both in match order. */
  method CompletionsFromFile(packageOrFilename: string, types: seq<TypeMatch>, procs: seq<ProcMatch>)
    returns (completions: seq<Completion>)
    ensures completions == TypeCompletionsOf(packageOrFilename, types) + ProcCompletionsOf(packageOrFilename, procs)
  {
    completions := TypeCompletions(packageOrFilename, types);
    ghost var typeCompletions := completions;
    for i := 0 to |procs|
      invariant completions == typeCompletions + ProcCompletionsOf(packageOrFilename, procs[..i])
    {
      var c := ProcCompletion(packageOrFilename, procs[i]);
      ProcCompletionsSnoc(packageOrFilename, procs, i);
      AppendAssoc(typeCompletions, ProcCompletionsOf(packageOrFilename, procs[..i]), [c]);
      completions := completions + [c];
    }
    assert procs[..|procs|] == procs;
  }

  // ---------------------------------------------------------------------------
  // The per-package completion cache.

  /** `CompletionCache.completions_by_package`: a class attribute, so one dictionary made
      when the class is defined and shared by every instance. */
  class CompletionTable {
    var completionsByPackage: map<string, seq<Completion>>

    constructor ()
      ensures completionsByPackage == map[]
    {
      completionsByPackage := map[];
    }
  }

  /** `CompletionCache`: completion lists by package name, kept in the shared table. */
  class CompletionCache {
    const table: CompletionTable

    /** A new instance adds no state of its own: it sees the shared table as it is. */
    constructor (table: CompletionTable)
      ensures this.table == table
    {
      this.table := table;
    }

    /** `invalidate_completions`: drops the entry, if there is one; nothing else changes. */
    method InvalidateCompletions(package: string)
      modifies table
      ensures !HasCompletions(package)
      ensures table.completionsByPackage == old(table.completionsByPackage) - {package}
    {
      table.completionsByPackage := table.completionsByPackage - {package};
    }

    /** `has_completions`: asked of the shared table, so an entry stored through any
        instance counts. */
    predicate HasCompletions(package: string)
      reads this, table
    {
      package in table.completionsByPackage
    }

    /** `set_completions`: stores (or overwrites) the entry; nothing else changes. */
    method SetCompletions(package: string, completions: seq<Completion>)
      modifies table
      ensures HasCompletions(package) && table.completionsByPackage[package] == completions
      ensures forall p :: p != package ==>
        (p in table.completionsByPackage <==> p in old(table.completionsByPackage)) &&
        (p in table.completionsByPackage ==> table.completionsByPackage[p] == old(table.completionsByPackage)[p])
    {
      table.completionsByPackage := table.completionsByPackage[package := completions];
    }
  }

  /** Two instances over the class's one table: what the first stores, a second one made
      afterwards already has, and what it drops the first no longer has. */
  method CachesShareTable(table: CompletionTable, package: string, completions: seq<Completion>)
    returns (secondHas: bool, firstHasAfterDrop: bool)
    modifies table
    ensures secondHas && !firstHasAfterDrop
    ensures table.completionsByPackage == old(table.completionsByPackage) - {package}
  {
    var first := new CompletionCache(table);
    first.SetCompletions(package, completions);
    var second := new CompletionCache(table);
    secondHas := second.HasCompletions(package);
    second.InvalidateCompletions(package);
    firstHasAfterDrop := first.HasCompletions(package);
    assert table.completionsByPackage == old(table.completionsByPackage)[package := completions] - {package};
  }
}
