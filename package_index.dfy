/** What odin_completer.py and completer.py share: the records `odin query` reports, the
    parsing of a proc signature in `gen_completion_for_proc`, and the per-package tables, which
    both `Completer` classes keep as class attributes and so share between instances. The
    subprocess call and the JSON decoding are not modelled: their result arrives as a
    `QueryOutput`. */
module PackageIndex {
  import opened Base
  import opened Strings
  import opened Parser

  /** A record of `packages`; only its name is read. */
  datatype PackageRecord = PackageRecord(name: string)

  /** A record of `definitions`. `typ` and `typeKind` are `None` when the key is absent. */
  datatype DefinitionRecord = DefinitionRecord(
    package: string, name: string, kind: string, typ: Option<string>, typeKind: Option<string>)

  /** The decoded output of `odin query <file> -global-definitions`. */
  datatype QueryOutput = QueryOutput(packages: seq<PackageRecord>, definitions: seq<DefinitionRecord>)

  // ---------------------------------------------------------------------------
  // The package list.

  /** The names appended to `packages`: every package except `main`, in order. */
  function IndexedPackageNames(ps: seq<PackageRecord>): seq<string> {
    if |ps| == 0 then []
    else
      IndexedPackageNames(ps[..|ps| - 1])
      + (if ps[|ps| - 1].name == "main" then [] else [ps[|ps| - 1].name])
  }

  /** A name is appended exactly when some package has it and it is not `main`. */
  lemma {:induction false} IndexedPackageNamesMembers(ps: seq<PackageRecord>, x: string)
    ensures x in IndexedPackageNames(ps) <==> x != "main" && exists i :: 0 <= i < |ps| && ps[i].name == x
  {
    if |ps| > 0 {
      var init := ps[..|ps| - 1];
      IndexedPackageNamesMembers(init, x);
      if exists i :: 0 <= i < |ps| && ps[i].name == x {
        var i :| 0 <= i < |ps| && ps[i].name == x;
        if i < |ps| - 1 { assert init[i] == ps[i]; }
      }
      if exists i :: 0 <= i < |init| && init[i].name == x {
        var i :| 0 <= i < |init| && init[i].name == x;
        assert ps[i] == init[i];
      }
    }
  }

  // ---------------------------------------------------------------------------
  // The per-package tables.

  /** An entry of a per-package list: a `[label, insert]` pair, or the `[[label]]` that
      completer.py produces for a proc. */
  datatype Entry = Pair(completion: Completion) | LabelOnly(text: string)

  /** Which of the three per-package dictionaries. */
  datatype Table = Procs | Types | Vars

  /** The contents of the three dictionaries. */
  datatype Tables = Tables(procs: map<string, seq<Entry>>, types: map<string, seq<Entry>>, vars: map<string, seq<Entry>>)
  {
    function Get(table: Table): map<string, seq<Entry>> {
      match table
      case Procs => procs
      case Types => types
      case Vars => vars
    }

    /** The dictionary `table` with `package` mapped to `list`, the other two as they are. */
    function Put(table: Table, package: string, list: seq<Entry>): (r: Tables)
      ensures r.Get(table) == Get(table)[package := list]
      ensures forall other :: other != table ==> r.Get(other) == Get(other)
    {
      match table
      case Procs => this.(procs := procs[package := list])
      case Types => this.(types := types[package := list])
      case Vars => this.(vars := vars[package := list])
    }
  }

  /** The list of `package` in a dictionary, an absent key read as an empty list (the
      completion code only ever iterates over it). */
  function Lookup(m: map<string, seq<Entry>>, package: string): seq<Entry> {
    if package in m then m[package] else []
  }

  /** Storing twice under the same key keeps the second list. */
  lemma PutTwice(t: Tables, tb: Table, pk: string, first: seq<Entry>, second: seq<Entry>)
    ensures t.Put(tb, pk, first).Put(tb, pk, second) == t.Put(tb, pk, second)
  {
    match tb
    case Procs => assert t.procs[pk := first][pk := second] == t.procs[pk := second];
    case Types => assert t.types[pk := first][pk := second] == t.types[pk := second];
    case Vars => assert t.vars[pk := first][pk := second] == t.vars[pk := second];
  }

  /** Storing a list changes what one package reads in one dictionary, and nothing else. */
  lemma PutLookup(t: Tables, tb: Table, pk: string, list: seq<Entry>, table: Table, package: string)
    ensures Lookup(t.Put(tb, pk, list).Get(table), package)
      == if tb == table && pk == package then list else Lookup(t.Get(table), package)
  {
  }

  /** The dictionary a definition of kind `kind` goes to; other kinds (`procedure group`) are
      skipped. */
  function TableOf(kind: string): (r: Option<Table>)
    ensures r == Some(Types) <==> kind == "type name"
    ensures r == Some(Vars) <==> kind == "variable" || kind == "constant"
    ensures r == Some(Procs) <==> kind == "procedure"
  {
    if kind == "type name" then Some(Types)
    else if kind == "variable" || kind == "constant" then Some(Vars)
    else if kind == "procedure" then Some(Procs)
    else None
  }

  /** Whether definition `d` adds to the list of `package` in `table`. */
  predicate Matches(d: DefinitionRecord, table: Table, package: string) {
    TableOf(d.kind) == Some(table) && d.package == package
  }

  /** The entry of a `type name` definition: its type, labelled with the package; a missing
      `type` fails at `None + str`. */
  function TypeEntry(d: DefinitionRecord): (r: Outcome<Entry>)
    ensures r.Ok? <==> d.typ.Some?
    ensures r.Ok? ==> r.value == Pair(Completion(d.typ.value + "\t" + d.package, d.typ.value))
  {
    match d.typ
    case None => Raise(TypeError)
    case Some(t) => Ok(Pair(Completion(t + "\t" + d.package, t)))
  }

  /** The entry of a `variable` or `constant` definition: its name, labelled with its type
      kind, or with its package when the record has no type kind. */
  function VarEntry(d: DefinitionRecord): (r: Entry)
    ensures r.Pair? && r.completion.insertText == d.name
    ensures d.typeKind.None? ==> r.completion.trigger == d.name + "\t" + d.package
    ensures d.typeKind.Some? ==> r.completion.trigger == d.name + "\t" + d.typeKind.value
  {
    Pair(Completion(d.name + "\t" + (match d.typeKind case None => d.package case Some(k) => k), d.name))
  }

  /** The entry odin_completer.py's `gen_completion_for_proc` returns: the signature from its
      first `(` labelled with the package, and the name with one numbered placeholder per
      parameter. */
  function ProcPairEntry(package: string, name: string, sig: Option<string>): (r: Outcome<Entry>)
    ensures sig.None? ==> r == Raise(AttributeError)
    ensures r.Ok? <==> ProcSignatureOf(name, sig).Ok?
    ensures r.Ok? ==> var ps := ProcSignatureOf(name, sig).value;
      r.value == Pair(Completion(ps.trigger + "\t" + package, ProcInsertText(name, ps.params)))
  {
    match ProcSignatureOf(name, sig)
    case Raise(e) => Raise(e)
    case Ok(ps) => Ok(Pair(Completion(ps.trigger + "\t" + package, ProcInsertText(name, ps.params))))
  }

  /** The entry completer.py's `gen_completion_for_proc` returns: the labelled signature
      alone; the inserted text it builds is dropped. */
  function ProcLabelEntry(package: string, name: string, sig: Option<string>): (r: Outcome<Entry>)
    ensures sig.None? ==> r == Raise(AttributeError)
    ensures r.Ok? <==> ProcSignatureOf(name, sig).Ok?
    ensures r.Ok? ==> r.value == LabelOnly(ProcSignatureOf(name, sig).value.trigger + "\t" + package)
  {
    match ProcSignatureOf(name, sig)
    case Raise(e) => Raise(e)
    case Ok(ps) => Ok(LabelOnly(ps.trigger + "\t" + package))
  }

  /** Which of the two `gen_completion_for_proc` an indexer uses. */
  datatype ProcStyle = PairStyle | LabelStyle

  /** The entry appended for a definition of a kind that is indexed. */
  function EntryOf(d: DefinitionRecord, table: Table, style: ProcStyle): Outcome<Entry> {
    match table
    case Types => TypeEntry(d)
    case Vars => Ok(VarEntry(d))
    case Procs =>
      match style
      case PairStyle => ProcPairEntry(d.package, d.name, d.typ)
      case LabelStyle => ProcLabelEntry(d.package, d.name, d.typ)
  }

  /** The entries the definitions give for `package` in `table`, in order. */
  function EntriesFor(defs: seq<DefinitionRecord>, table: Table, package: string, style: ProcStyle): seq<Entry> {
    if |defs| == 0 then []
    else
      var d := defs[|defs| - 1];
      EntriesFor(defs[..|defs| - 1], table, package, style)
      + (if Matches(d, table, package) && EntryOf(d, table, style).Ok? then [EntryOf(d, table, style).value] else [])
  }

  /** The class attributes `packages`, `procs_by_package`, `types_by_package` and
      `vars_by_package`. */
  class PackageTables {
    var packages: seq<string>
    var procsByPackage: map<string, seq<Entry>>
    var typesByPackage: map<string, seq<Entry>>
    var varsByPackage: map<string, seq<Entry>>

    function State(): Tables
      reads this
    {
      Tables(procsByPackage, typesByPackage, varsByPackage)
    }

    constructor()
      ensures packages == [] && State() == Tables(map[], map[], map[])
    {
      packages := [];
      procsByPackage := map[];
      typesByPackage := map[];
      varsByPackage := map[];
    }

    /** Replaces the contents of the three dictionaries. */
    method SetState(t: Tables)
      modifies this
      ensures State() == t && packages == old(packages)
    {
      procsByPackage := t.procs;
      typesByPackage := t.types;
      varsByPackage := t.vars;
    }

    /** Stores `list` as the list of `package` in the dictionary `table`. */
    method SetList(table: Table, package: string, list: seq<Entry>)
      modifies this
      ensures State() == old(State()).Put(table, package, list)
      ensures packages == old(packages)
    {
      match table
      case Procs => procsByPackage := procsByPackage[package := list];
      case Types => typesByPackage := typesByPackage[package := list];
      case Vars => varsByPackage := varsByPackage[package := list];
    }

    /** The loop over `js['packages']` of `index_file`. */
    method AddPackages(ps: seq<PackageRecord>)
      modifies this
      ensures packages == old(packages) + IndexedPackageNames(ps)
      ensures State() == old(State())
    {
      for i := 0 to |ps|
        invariant packages == old(packages) + IndexedPackageNames(ps[..i])
        invariant State() == old(State())
      {
        assert ps[..i + 1][..i] == ps[..i];
        if ps[i].name == "main" {
          continue;
        }
        packages := packages + [ps[i].name];
      }
      assert ps[..|ps|] == ps;
    }
  }

  // ---------------------------------------------------------------------------
  // `gen_completion_for_proc`: the signature.

  /** The first group of `findall(r'.*?proc.*?(\(.*?)$', s)`, if any. No `.` crosses a line
      break and `$` is the end of the text, so only the last line can match; there the group
      runs from the first `(` after the first `proc` to the end. */
  function ProcParamsBodyOf(s: string): (r: Option<string>)
    ensures r.Some? ==> |r.value| > 0 && r.value[0] == '(' && r.value[0] in s
  {
    var line := match LastIndexOf(s, '\n') case None => s case Some(k) => s[k + 1..];
    match IndexOf(line, "proc")
    case None => None
    case Some(i) =>
      match IndexOf(line[i + 4..], "(")
      case None => None
      case Some(j) =>
        assert line[i + 4..][j..j + 1] == "(";
        assert line[i + 4 + j] in s;
        Some(line[i + 4 + j..])
  }

  /** A `(` at `j` follows the `proc` at `i`. */
  predicate ParenAfterProc(s: string, i: nat, j: nat) {
    i + 4 <= j < |s| && OccursAt(s, "proc", i) && s[j] == '('
  }

  /** No `(` follows the first `proc`, so none follows any later one. */
  lemma NoParenAfterFirstProc(s: string, i: nat)
    requires IndexOf(s, "proc") == Some(i) && IndexOf(s[i + 4..], "(").None?
    ensures forall i': nat, j: nat :: !ParenAfterProc(s, i', j)
  {
    var rest := s[i + 4..];
    forall i': nat, j: nat ensures !ParenAfterProc(s, i', j) {
      if OccursAt(s, "proc", i') && i' + 4 <= j < |s| {
        assert i <= i';
        var k := j - (i + 4);
        assert !OccursAt(rest, "(", k);
        assert rest[k..k + 1] == [s[j]];
      }
    }
  }

  /** On one line, the pattern finds nothing exactly when no `(` follows a `proc`. */
  lemma ProcParamsBodyNone(s: string)
    requires '\n' !in s
    ensures ProcParamsBodyOf(s).None? <==> forall i: nat, j: nat :: !ParenAfterProc(s, i, j)
  {
    assert LastIndexOf(s, '\n').None?;
    match IndexOf(s, "proc")
    case None =>
    case Some(i) =>
      match IndexOf(s[i + 4..], "(")
      case None => NoParenAfterFirstProc(s, i);
      case Some(j) =>
        assert s[i + 4..][j..j + 1] == "(";
        assert ParenAfterProc(s, i, i + 4 + j);
  }

  /** The part of a signature before its first `->`, stripped. */
  function SignatureHead(sig: string): string {
    Strip(Split(sig, "->")[0])
  }

  /** The characters `strip(' ()')` removes. */
  const ParenSpace: set<char> := {' ', '(', ')'}

  /** `body.split(',')`, each piece stripped of spaces and parentheses. */
  function SignatureParams(body: string): (r: seq<string>)
    ensures |r| == |Split(body, ",")| && |r| > 0
  {
    var pieces := Split(body, ",");
    seq(|pieces|, i requires 0 <= i < |pieces| => StripChars(pieces[i], ParenSpace))
  }

  /** The label and the parameters `gen_completion_for_proc` derives from a signature. */
  datatype ProcSignature = ProcSignature(trigger: string, params: seq<string>)

  /** The parsing part of `gen_completion_for_proc`: a missing `type` is `None` and fails at
      `split`; a head without `proc` followed by `(` fails at `[0]`; the label is the name
      followed by the signature from its first `(`. */
  function ProcSignatureOf(name: string, sig: Option<string>): Outcome<ProcSignature> {
    match sig
    case None => Raise(AttributeError)
    case Some(s) =>
      match ProcParamsBodyOf(SignatureHead(s))
      case None => Raise(IndexError)
      case Some(body) =>
        var params := SignatureParams(body);
        match IndexOf(s, "(")
        case None => Raise(ValueError)
        case Some(k) => Ok(ProcSignature(name + s[k..], params))
  }

  /** What `strip()` keeps comes from the stripped text. */
  lemma StripKeepsCharacters(s: string)
    ensures forall k :: 0 <= k < |Strip(s)| ==> Strip(s)[k] in s
  {
    var l := TrimLeft(s, Spaces);
    TrimLeftSpec(s, Spaces);
    TrimRightSpec(l, Spaces);
    forall k | 0 <= k < |Strip(s)| ensures Strip(s)[k] in s {
      assert Strip(s)[k] == l[k] == s[|s| - |l| + k];
    }
  }

  /** The first piece of a split is a prefix of the text. */
  lemma SplitFirstIsPrefix(s: string, sep: string)
    requires |sep| > 0
    ensures var first := Split(s, sep)[0]; |first| <= |s| && first == s[..|first|]
  {
  }

  /** Once the head has matched, the signature has a `(`, so `sig.index('(')` never fails. */
  lemma ProcSignatureNeverValueError(name: string, sig: string)
    ensures ProcSignatureOf(name, Some(sig)) != Raise(ValueError)
  {
    var head := SignatureHead(sig);
    var first := Split(sig, "->")[0];
    match ProcParamsBodyOf(head)
    case None =>
    case Some(body) =>
      StripKeepsCharacters(first);
      SplitFirstIsPrefix(sig, "->");
      var k :| 0 <= k < |head| && head[k] == '(';
      assert head[k] in first;
      var m :| 0 <= m < |first| && first[m] == '(';
      assert sig[m] == '(';
      assert OccursAt(sig, "(", m) by { assert sig[m..m + 1] == "("; }
  }

  /** A signature raises exactly when its head has no `proc` followed by `(`, and then the
      exception is the `IndexError` of `[0]`. */
  lemma ProcSignatureRaises(name: string, sig: string)
    ensures ProcSignatureOf(name, Some(sig)).Raise? <==> ProcParamsBodyOf(SignatureHead(sig)).None?
    ensures ProcSignatureOf(name, Some(sig)).Raise? ==> ProcSignatureOf(name, Some(sig)).error == IndexError
  {
    ProcSignatureNeverValueError(name, sig);
  }

  /** The label is the name followed by the signature from its first `(`. */
  lemma ProcSignatureLabel(name: string, sig: string)
    requires ProcSignatureOf(name, Some(sig)).Ok?
    ensures var t := ProcSignatureOf(name, Some(sig)).value.trigger;
      exists k :: 0 <= k < |sig| && sig[k] == '(' && (forall j :: 0 <= j < k ==> sig[j] != '(')
        && t == name + sig[k..]
  {
    var k := IndexOf(sig, "(").value;
    assert sig[k..k + 1] == "(";
    forall j | 0 <= j < k ensures sig[j] != '(' {
      assert !OccursAt(sig, "(", j);
      assert sig[j..j + 1] == [sig[j]];
    }
  }

  /** There is one parameter more than there are commas in the text from the `(`, and none
      of them keeps a comma, or a space or parenthesis at either end. */
  lemma SignatureParamsShape(body: string)
    ensures |SignatureParams(body)| == Count(body, ',') + 1
    ensures forall i :: 0 <= i < |SignatureParams(body)| ==>
      var p := SignatureParams(body)[i];
      |p| > 0 ==> p[0] !in ParenSpace && p[|p| - 1] !in ParenSpace
  {
    SplitCharCount(body, ',');
    var pieces := Split(body, ",");
    forall i | 0 <= i < |pieces| ensures
      var p := SignatureParams(body)[i]; |p| > 0 ==> p[0] !in ParenSpace && p[|p| - 1] !in ParenSpace
    {
      StripCharsSpec(pieces[i], ParenSpace);
    }
  }

  /** `proc()` has no `->`, so it is its own head. */
  lemma EmptyProcHead()
    ensures SignatureHead("proc()") == "proc()"
  {
    var s := "proc()";
    assert IndexOf(s, "->") == None by {
      forall j | 0 <= j <= |s| ensures !OccursAt(s, "->", j) {
        if j + 2 <= |s| { assert s[j..j + 2] == [s[j], s[j + 1]]; }
      }
    }
    assert Split(s, "->") == [s];
    StripFixed(s);
  }

  /** In `proc()` the group starts at the `(`. */
  lemma EmptyProcBody()
    ensures ProcParamsBodyOf("proc()") == Some("()")
  {
    var s := "proc()";
    assert LastIndexOf(s, '\n') == None;
    assert IndexOf(s, "proc") == Some(0) by { assert s[0..4] == "proc"; }
    assert s[4..] == "()";
    assert IndexOf("()", "(") == Some(0) by { assert "()"[0..1] == "("; }
  }

  /** `'()'.split(',')` is one piece, which `strip(' ()')` empties. */
  lemma EmptyProcParams()
    ensures SignatureParams("()") == [""]
  {
    assert IndexOf("()", ",") == None by {
      forall j | 0 <= j <= 2 ensures !OccursAt("()", ",", j) {
        if j + 1 <= 2 { assert "()"[j..j + 1] == ["()"[j]]; }
      }
    }
    assert Split("()", ",") == ["()"];
    assert StripChars("()", ParenSpace) == "";
  }

  /** The first `(` of `proc()` is at index 4. */
  lemma EmptyProcFirstParen()
    ensures IndexOf("proc()", "(") == Some(4)
  {
    var s := "proc()";
    assert OccursAt(s, "(", 4) by { assert s[4..5] == "("; }
    forall j | 0 <= j < 4 ensures !OccursAt(s, "(", j) { assert s[j..j + 1] == [s[j]]; }
    FirstOccurrence(s, "(", 4);
  }

  /** An occurrence with none before it is the one `find` reports. */
  lemma FirstOccurrence(s: string, sub: string, k: nat)
    requires OccursAt(s, sub, k) && forall j :: 0 <= j < k ==> !OccursAt(s, sub, j)
    ensures IndexOf(s, sub) == Some(k)
  {
    assert k <= |s|;
  }

  /** `proc()` has one, empty, parameter, because `split` always yields a piece. */
  lemma EmptyProcSignature(name: string)
    ensures ProcSignatureOf(name, Some("proc()")) == Ok(ProcSignature(name + "()", [""]))
  {
    EmptyProcHead();
    EmptyProcBody();
    EmptyProcParams();
    EmptyProcFirstParen();
    assert "proc()"[4..] == "()";
  }

  /** Its inserted text is then the name, and one empty placeholder in parentheses. */
  lemma EmptyProcInsertText(name: string)
    ensures ProcInsertText(name, [""]) == name + "(${1:})"
  {
    assert NatToString(1) == "1";
    assert Placeholders([""]) == [Placeholder(1, "")] by { assert [""][..0] == []; }
  }

  /** The loop of `gen_completion_for_proc` building the inserted text. */
  method BuildInsertText(name: string, params: seq<string>) returns (result: string)
    ensures result == ProcInsertText(name, params)
  {
    result := name + "(";
    if |params| > 0 {
      for p := 0 to |params|
        invariant result == name + "(" + Join(", ", Placeholders(params[..p]))
      {
        ghost var holders := Placeholders(params[..p]);
        var holder := Placeholder(p + 1, params[p]);
        assert params[..p + 1] == params[..p] + [params[p]];
        assert params[..p + 1][..p] == params[..p];
        assert Placeholders(params[..p + 1]) == holders + [holder];
        JoinExtend(name + "(", ", ", holders, holder);
        if p > 0 {
          result := result + ", ";
        }
        result := result + holder;
      }
      assert params[..|params|] == params;
    }
    result := result + ")";
  }
}
