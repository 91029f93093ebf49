/** Dependency specifications such as `package >= 1.0`, and the package name taken from them. */
module DepSpecs {

  /** What Python strips: the white space of Unicode and the four ASCII separators. */
  predicate IsSpace(c: char)
  {
    var n := c as int;
    || 0x09 <= n <= 0x0d || 0x1c <= n <= 0x20 || n in {0x85, 0xa0, 0x1680} || 0x2000 <= n <= 0x200a
    || n in {0x2028, 0x2029, 0x202f, 0x205f, 0x3000}
  }

  function TrimLeft(s: string): string
  {
    if s != [] && IsSpace(s[0]) then TrimLeft(s[1..]) else s
  }

  function TrimRight(s: string): string
  {
    if s != [] && IsSpace(s[|s| - 1]) then TrimRight(s[..|s| - 1]) else s
  }

  function Trim(s: string): string
  {
    TrimRight(TrimLeft(s))
  }

  /** The first place of `op` in `s`, or the length of `s`. */
  function Find(s: string, op: string): (k: nat)
    ensures k <= |s|
    ensures k < |s| ==> op <= s[k..]
    ensures forall i :: 0 <= i < k ==> !(op <= s[i..])
  {
    if s == [] || op <= s then 0
    else
      assert forall i :: 1 <= i <= |s| ==> s[i..] == s[1..][i - 1..];
      Find(s[1..], op) + 1
  }

  /** Where the specification is cut: at the first operator of the list that occurs in it, else nowhere. */
  function Cut(s: string, ops: seq<string>): (k: nat)
    ensures k <= |s|
  {
    if ops == [] then |s| else if Find(s, ops[0]) < |s| then Find(s, ops[0]) else Cut(s, ops[1..])
  }

  /** The operators, in the order they are looked for. */
  function Operators(): seq<string>
  {
    [">=", "<=", "==", "=", ">", "<"]
  }

  /** `_strip_version` */
  method StripVersion(spec: string) returns (name: string)
    ensures name == Trim(spec[..Cut(spec, Operators())])
  {
    var ops := Operators();
    for i := 0 to |ops|
      invariant Cut(spec, ops) == Cut(spec, ops[i..])
    {
      var k := Find(spec, ops[i]);
      assert ops[i..][1..] == ops[i + 1..];
      if k < |spec| {
        return Trim(spec[..k]);
      }
    }
    assert spec[..|spec|] == spec;
    return Trim(spec);
  }

  // ----- what the name looks like

  predicate IsComparison(c: char)
  {
    c == '=' || c == '<' || c == '>'
  }

  /** No comparison character is left. */
  ghost predicate Bare(s: string)
  {
    forall i :: 0 <= i < |s| ==> !IsComparison(s[i])
  }

  /** The place of the first comparison character, or the length. */
  function FirstComparison(s: string): (k: nat)
    ensures k <= |s|
    ensures k < |s| ==> IsComparison(s[k])
    ensures Bare(s[..k])
  {
    if s == [] || IsComparison(s[0]) then 0
    else
      var k := FirstComparison(s[1..]);
      assert forall i :: 1 <= i <= k ==> s[i] == s[1..][i - 1] == s[1..][..k][i - 1];
      k + 1
  }

  /** Trimming takes no comparison character away. */
  lemma {:induction false} TrimRightKeeps(s: string)
    ensures Bare(TrimRight(s)) <==> Bare(s)
  {
    if s != [] && IsSpace(s[|s| - 1]) {
      TrimRightKeeps(s[..|s| - 1]);
      assert forall i :: 0 <= i < |s| - 1 ==> s[..|s| - 1][i] == s[i];
    }
  }

  lemma {:induction false} TrimLeftKeeps(s: string)
    ensures Bare(TrimLeft(s)) <==> Bare(s)
  {
    if s != [] && IsSpace(s[0]) {
      TrimLeftKeeps(s[1..]);
      assert forall i :: 1 <= i < |s| ==> s[1..][i - 1] == s[i];
    }
  }

  /** Every operator begins with a comparison character. */
  ghost predicate Comparing(ops: seq<string>)
  {
    forall i :: 0 <= i < |ops| ==> ops[i] != [] && IsComparison(ops[i][0])
  }

  /** An operator is never found before the first comparison character. */
  lemma {:induction false} CutIsLate(s: string, ops: seq<string>)
    requires Comparing(ops)
    ensures Cut(s, ops) >= FirstComparison(s)
  {
    if ops != [] {
      var k := Find(s, ops[0]);
      if k < |s| {
        assert s[k] == s[k..][0] == ops[0][0];
        assert forall i :: 0 <= i < FirstComparison(s) ==> s[..FirstComparison(s)][i] == s[i];
      } else {
        CutIsLate(s, ops[1..]);
      }
    }
  }

  /** `op` stands somewhere in `s`. */
  ghost predicate Occurs(s: string, op: string)
  {
    exists k :: 0 <= k < |s| && op <= s[k..]
  }

  /** `ops[i]` stands at `f`, and none that is looked for before it stands anywhere. */
  ghost predicate IsFoundAt(s: string, ops: seq<string>, f: nat, i: int)
    requires f <= |s|
  {
    0 <= i < |ops| && ops[i] <= s[f..] && forall j :: 0 <= j < i ==> !Occurs(s, ops[j])
  }

  /** The cut is at the first comparison character if and only if there is none, or of the operators that occur the
      first of the list stands there. */
  lemma {:induction false} CutIsFirstExactly(s: string, ops: seq<string>)
    requires Comparing(ops)
    ensures var f := FirstComparison(s); Cut(s, ops) == f <==> f == |s| || exists i :: IsFoundAt(s, ops, f, i)
  {
    var f := FirstComparison(s);
    CutIsLate(s, ops);
    hide FirstComparison;
    if f < |s| && ops != [] {
      var k := Find(s, ops[0]);
      OccursWhereFound(s, ops[0]);
      if k < |s| {
        hide Occurs, Find;
        assert k == f ==> IsFoundAt(s, ops, f, 0);
        forall i | IsFoundAt(s, ops, f, i) ensures k <= f { assert i == 0; }
      } else {
        hide Cut;
        assert Cut(s, ops) == Cut(s, ops[1..]);
        CutIsFirstExactly(s, ops[1..]);
        FoundInRest(s, ops, f);
      }
    }
  }

  lemma OccursWhereFound(s: string, op: string)
    ensures Occurs(s, op) <==> Find(s, op) < |s|
  {
  }

  lemma FoundInRest(s: string, ops: seq<string>, f: nat)
    requires ops != [] && f < |s| && !Occurs(s, ops[0])
    ensures (exists i :: IsFoundAt(s, ops, f, i)) <==> exists i :: IsFoundAt(s, ops[1..], f, i)
  {
    var rest := ops[1..];
    if i :| IsFoundAt(s, ops, f, i) {
      assert !(ops[0] <= s[f..]);
      assert rest[i - 1] == ops[i];
      forall j | 0 <= j < i - 1 ensures !Occurs(s, rest[j]) { assert rest[j] == ops[j + 1]; }
      assert IsFoundAt(s, rest, f, i - 1);
    }
    if i :| IsFoundAt(s, rest, f, i) {
      forall j | 0 <= j < i + 1 ensures !Occurs(s, ops[j]) { assert j > 0 ==> rest[j - 1] == ops[j]; }
      assert IsFoundAt(s, ops, f, i + 1);
    }
  }

  lemma BareUpTo(s: string, cut: nat)
    requires FirstComparison(s) <= cut <= |s|
    ensures Bare(s[..cut]) <==> cut == FirstComparison(s)
  {
    var f := FirstComparison(s);
    if f < cut { assert s[..cut][f] == s[f]; }
  }

  lemma BareExactly(spec: string, ops: seq<string>)
    requires Comparing(ops)
    ensures var name, f := Trim(spec[..Cut(spec, ops)]), FirstComparison(spec);
            && (Bare(name) <==> f == |spec| || exists i :: IsFoundAt(spec, ops, f, i))
            && (Bare(name) ==> name == Trim(spec[..f]))
  {
    hide Cut, FirstComparison, IsFoundAt, Bare, Comparing, TrimLeft, TrimRight;
    var cut := Cut(spec, ops);
    CutIsLate(spec, ops);
    CutIsFirstExactly(spec, ops);
    TrimLeftKeeps(spec[..cut]);
    TrimRightKeeps(TrimLeft(spec[..cut]));
    BareUpTo(spec, cut);
  }

  lemma OperatorsCompare()
    ensures Comparing(Operators())
  {
  }

  /** The name is free of comparison characters, and is then the trimmed text before the first of them, if and only
      if there is none, or of the operators that occur the first of the list stands at the first of them. */
  lemma NameIsBareExactly(spec: string)
    ensures var name, f := Trim(spec[..Cut(spec, Operators())]), FirstComparison(spec);
            && (Bare(name) <==> f == |spec| || exists i :: IsFoundAt(spec, Operators(), f, i))
            && (Bare(name) ==> name == Trim(spec[..f]))
  {
    hide *;
    OperatorsCompare();
    BareExactly(spec, Operators());
  }

  /** A longer operator wins over one that comes first, and the first one stays in the name. */
  lemma LongerOperatorWins()
    ensures !Bare(Trim("a>b>=1"[..Cut("a>b>=1", Operators())]))
  {
    var s := "a>b>=1";
    assert s[0..][0] == 'a' && s[1..][1] == 'b' && s[2..][0] == 'b' && ">=" <= s[3..];
    var k := Find(s, ">=");
    assert k != 0 && k != 1 && k != 2 && k == 3;
    assert Operators()[0] == ">=";
    assert forall i :: 0 <= i < FirstComparison(s) ==> s[..FirstComparison(s)][i] == s[i];
    assert IsComparison(s[1]);
    NameIsBareExactly(s);
  }

  // ----- ordinary specifications

  /** A space, tab or line break. */
  predicate IsBlank(c: char)
  {
    c == ' ' || '\t' <= c <= '\r'
  }

  /** A visible ASCII character other than the three of comparisons. */
  predicate IsNameChar(c: char)
  {
    '!' <= c <= '~' && c != '=' && c != '<' && c != '>'
  }

  ghost predicate IsPlainName(n: string)
  {
    n != [] && forall i :: 0 <= i < |n| ==> IsNameChar(n[i])
  }

  ghost predicate IsBlanks(w: string)
  {
    forall i :: 0 <= i < |w| ==> IsBlank(w[i])
  }

  lemma {:induction false} TrimLeftBlanks(w: string, x: string)
    requires IsBlanks(w) && x != [] && IsNameChar(x[0])
    ensures TrimLeft(w + x) == x
  {
    if w == [] {
      assert w + x == x;
    } else {
      assert (w + x)[1..] == w[1..] + x && (w + x)[0] == w[0];
      TrimLeftBlanks(w[1..], x);
    }
  }

  lemma {:induction false} TrimRightBlanks(x: string, w: string)
    requires IsBlanks(w) && x != [] && IsNameChar(x[|x| - 1])
    ensures TrimRight(x + w) == x
  {
    if w == [] {
      assert x + w == x;
    } else {
      assert (x + w)[..|x + w| - 1] == x + w[..|w| - 1] && (x + w)[|x + w| - 1] == w[|w| - 1];
      TrimRightBlanks(x, w[..|w| - 1]);
    }
  }

  /** Blanks around a name go. */
  lemma TrimName(w: string, n: string, w': string)
    requires IsBlanks(w) && IsPlainName(n) && IsBlanks(w')
    ensures Trim(w + n + w') == n
  {
    assert w + n + w' == w + (n + w');
    TrimLeftBlanks(w, n + w');
    TrimRightBlanks(n, w');
  }

  lemma FirstComparisonAt(a: string, b: string)
    requires Bare(a) && b != [] && IsComparison(b[0])
    ensures FirstComparison(a + b) == |a|
  {
    var s := a + b;
    var f := FirstComparison(s);
    assert s[|a|] == b[0] && forall i :: 0 <= i < |a| ==> s[i] == a[i];
    forall i | 0 <= i < f ensures !IsComparison(s[i]) { assert s[..f][i] == s[i]; }
  }

  /** `part` stands in `op` at place `m`. */
  predicate PartAt(part: string, op: string, m: nat)
  {
    m + |part| <= |op| && part == op[m..m + |part|]
  }

  /** What is made of comparison characters and occurs, does so in the operator. */
  lemma OccursInOperator(a: string, op: string, b: string, part: string)
    requires Bare(a) && Bare(b) && part != [] && IsComparison(part[0]) && IsComparison(part[|part| - 1])
    requires Occurs(a + op + b, part)
    ensures exists m: nat :: PartAt(part, op, m)
  {
    var s := a + op + b;
    ComparisonsInside(a, op, b);
    var k :| 0 <= k < |s| && part <= s[k..];
    assert s[k] == s[k..][0] && s[k + |part| - 1] == s[k..][|part| - 1];
    assert |a| <= k && k + |part| <= |a| + |op|;
    assert s[|a|..|a| + |op|] == op;
    SliceOfSlice(s, |a|, op, k, part);
  }

  lemma SliceOfSlice(s: string, n: nat, op: string, k: nat, part: string)
    requires n <= k && k + |part| <= n + |op| <= |s| && s[n..n + |op|] == op && part <= s[k..]
    ensures PartAt(part, op, k - n)
  {
    var m := k - n;
    assert s[k..][..|part|] == s[k..k + |part|] == s[n..n + |op|][m..m + |part|];
  }

  lemma ComparisonsInside(a: string, op: string, b: string)
    requires Bare(a) && Bare(b)
    ensures var s := a + op + b; forall i :: 0 <= i < |s| && IsComparison(s[i]) ==> |a| <= i < |a| + |op|
  {
    var s := a + op + b;
    forall i | 0 <= i < |a| ensures !IsComparison(s[i]) { assert s[i] == a[i]; }
    forall i | |a| + |op| <= i < |s| ensures !IsComparison(s[i]) { assert s[i] == b[i - |a| - |op|]; }
  }

  /** An operator that is looked for earlier is no part of one that is looked for later. */
  lemma EarlierIsNoPart(i: nat, j: nat)
    requires j < i < 6
    ensures forall m: nat :: !PartAt(Operators()[j], Operators()[i], m)
  {
    var ops := Operators();
    forall m: nat ensures !PartAt(ops[j], ops[i], m) {
      if m + |ops[j]| <= |ops[i]| {
        var part := ops[i][m..m + |ops[j]|];
        assert part[0] == ops[i][m] && part[|part| - 1] == ops[i][m + |part| - 1];
      }
    }
  }

  /** The operator is found where it stands. */
  lemma FindsOperator(a: string, i: nat, version: string)
    requires Bare(a) && Bare(version) && i < 6
    ensures var spec := a + Operators()[i] + version;
            FirstComparison(spec) == |a| && IsFoundAt(spec, Operators(), |a|, i) && spec[..|a|] == a
  {
    var ops := Operators();
    var spec := a + ops[i] + version;
    OperatorsCompare();
    assert a + (ops[i] + version) == spec;
    FirstComparisonAt(a, ops[i] + version);
    assert forall j :: 0 <= j < 6 ==> forall c :: c in ops[j] ==> IsComparison(c);
    hide Operators, FirstComparison, Occurs, PartAt;
    forall j | 0 <= j < i ensures !Occurs(spec, ops[j]) {
      EarlierIsNoPart(i, j);
      if Occurs(spec, ops[j]) { OccursInOperator(a, ops[i], version, ops[j]); }
    }
    assert spec[|a|..] == ops[i] + version;
  }

  lemma BareName(w: string, n: string, w': string)
    requires IsBlanks(w) && IsPlainName(n) && IsBlanks(w')
    ensures Bare(w + n + w') && FirstComparison(w + n + w') == |w + n + w'|
  {
    assert Bare(w + n + w');
  }

  /** The usual forms, with any of the six operators: blanks, a name, blanks, the operator and what is compared with;
      the name is what is taken. */
  lemma TakesTheName(w: string, n: string, w': string, i: nat, version: string)
    requires IsBlanks(w) && IsPlainName(n) && IsBlanks(w') && i < 6 && Bare(version)
    ensures var spec := w + n + w' + [">=", "<=", "==", "=", ">", "<"][i] + version;
            Trim(spec[..Cut(spec, Operators())]) == n
    ensures Trim((w + n + w')[..Cut(w + n + w', Operators())]) == n
  {
    var a := w + n + w';
    assert Operators() == [">=", "<=", "==", "=", ">", "<"];
    hide *;
    BareName(w, n, w');
    TrimName(w, n, w');
    FindsOperator(a, i, version);
    NameIsBareExactly(a + Operators()[i] + version);
    NameIsBareExactly(a);
    assert a[..|a|] == a;
  }
}
