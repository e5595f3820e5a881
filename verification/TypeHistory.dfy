/** What a type answers with, told by the names it goes by and the registrations that survive. */
module TypeHistory {
  import opened Outcomes
  import opened Names
  import opened Graphs
  import opened TypeLineage
  import opened TypeAnswers
  import opened TypeRegistration

  // ---- the names a type goes by ----

  predicate AllBlank(s: string) {
    forall k :: 0 <= k < |s| ==> Blank(s[k])
  }

  lemma {:induction false} LeftPadding(l: string, x: string)
    requires AllBlank(l) && (x != "" ==> !Blank(x[0]))
    ensures StripLeft(l + x) == x
  {
    if l == "" {
      assert l + x == x;
    } else {
      LeftPadding(l[1..], x);
      assert (l + x)[1..] == l[1..] + x;
    }
  }

  lemma {:induction false} RightPadding(x: string, r: string)
    requires AllBlank(r) && (x != "" ==> !Blank(x[|x| - 1]))
    ensures StripRight(x + r) == x
  {
    if r == "" {
      assert x + r == x;
    } else {
      RightPadding(x, r[..|r| - 1]);
      assert (x + r)[..|x + r| - 1] == x + r[..|r| - 1];
    }
  }

  lemma Padding(l: string, x: string, r: string)
    requires AllBlank(l) && AllBlank(r) && (x != "" ==> !Blank(x[0]) && !Blank(x[|x| - 1]))
    ensures Strip(l + x + r) == x
  {
    if x == "" {
      assert l + x + r == (l + r) + "";
      LeftPadding(l + r, "");
    } else {
      assert l + x + r == l + (x + r);
      LeftPadding(l, x + r);
    }
    RightPadding(x, r);
  }

  lemma {:induction false} StripBehind(z: string, rest: string)
    ensures StripRight(z + ";" + rest) == z + ";" + StripRight(rest)
  {
    var w := z + ";" + rest;
    if rest == "" {
      assert w[|w| - 1] == ';';
    } else if Blank(rest[|rest| - 1]) {
      StripBehind(z, rest[..|rest| - 1]);
      assert w[..|w| - 1] == z + ";" + rest[..|rest| - 1];
    }
  }

  lemma {:induction false} UpToSemicolon(x: string, rest: string)
    requires ';' !in x
    ensures BeforeSemicolon(x + ";" + rest) == x
  {
    if x == "" {
      assert x + ";" + rest == ";" + rest;
    } else {
      UpToSemicolon(x[1..], rest);
      assert (x + ";" + rest)[1..] == x[1..] + ";" + rest;
    }
  }

  lemma LowerConcat(a: string, b: string)
    ensures Lower(a + b) == Lower(a) + Lower(b)
  {
  }

  lemma LowerBlank(m: string)
    requires AllBlank(m)
    ensures Lower(m) == m
  {
  }

  /** Case and padding do not matter: a plain name is found however it is written. */
  lemma NormalizeFinds(l: string, y: string, r: string)
    requires AllBlank(l) && AllBlank(r) && Plain(Lower(y))
    ensures NormalizeCt(l + y + r) == Lower(y)
  {
    LowerFacts(y);
    Padding(l, y, r);
  }

  /** Nor does what follows the first semicolon, nor blanks before it. */
  lemma ParametersIgnored(l: string, y: string, m: string, rest: string)
    requires AllBlank(l) && AllBlank(m) && Plain(Lower(y))
    ensures NormalizeCt(l + y + m + ";" + rest) == Lower(y)
  {
    var bare := if y == "" then "" else y + m;
    LowerFacts(y);
    StripParameters(l, y, m, rest);
    NoSemicolon(y, m, bare);
    CutParameters(bare, StripRight(rest));
    LowerBare(y, m, bare);
    BehindOnly(Lower(y), if y == "" then "" else m);
  }

  lemma LowerBare(y: string, m: string, bare: string)
    requires AllBlank(m) && bare == if y == "" then "" else y + m
    ensures Lower(bare) == Lower(y) + if y == "" then "" else m
  {
    LowerConcat(y, m);
    LowerBlank(m);
  }

  lemma BehindOnly(x: string, r: string)
    requires AllBlank(r) && (x != "" ==> !Blank(x[0]) && !Blank(x[|x| - 1]))
    ensures Strip(x + r) == x
  {
    Padding("", x, r);
    assert "" + x + r == x + r;
  }

  lemma CutParameters(bare: string, tail: string)
    requires ';' !in Lower(bare)
    ensures var c := Lower(bare + ";" + tail); ';' in c && BeforeSemicolon(c) == Lower(bare)
  {
    var c := Lower(bare + ";" + tail);
    assert c == Lower(bare) + ";" + Lower(tail);
    assert c[|bare|] == ';';
    UpToSemicolon(Lower(bare), Lower(tail));
  }

  lemma NoSemicolon(y: string, m: string, bare: string)
    requires AllBlank(m) && Plain(Lower(y)) && bare == if y == "" then "" else y + m
    ensures ';' !in Lower(bare)
  {
    LowerConcat(y, m);
    LowerBlank(m);
  }

  lemma StripParameters(l: string, y: string, m: string, rest: string)
    requires AllBlank(l) && AllBlank(m) && (y != "" ==> !Blank(y[0]))
    ensures Strip(l + y + m + ";" + rest) == (if y == "" then "" else y + m) + ";" + StripRight(rest)
  {
    if y == "" {
      assert l + y + m + ";" + rest == (l + m) + (";" + rest);
      LeftPadding(l + m, ";" + rest);
      assert "" + ";" + rest == ";" + rest;
      StripBehind("", rest);
    } else {
      assert l + y + m + ";" + rest == l + (y + m + ";" + rest);
      LeftPadding(l, y + m + ";" + rest);
      StripBehind(y + m, rest);
    }
  }

  // ---- the definition a name leads to, and the operations it declares ----

  /** A type inherits what the definition it resolves to says, the registration before the builtin. */
  lemma InheritsAsResolved(reg: Registry, ct: string)
    ensures NormalizeCt(ct) in Inherits(reg) <==> Resolve(reg, ct).Some?
    ensures Resolve(reg, ct).Some? ==>
              var g, td := Inherits(reg), Resolve(reg, ct).value;
              && |g[NormalizeCt(ct)]| == |td.inherits|
              && forall k :: 0 <= k < |td.inherits| ==> g[NormalizeCt(ct)][k] == NormalizeCt(td.inherits[k])
  {
  }

  lemma DeclarersResolve(reg: Registry, c: string, op: string)
    requires Filed(reg) && c in Declared(reg)
    ensures Resolve(reg, c) == Some(Held(reg, c))
    ensures (if c in Declarers(reg, op) then Some(Declarers(reg, op)[c]) else None) ==
              if op in Resolve(reg, c).value.operations then Some(Resolve(reg, c).value.operations[op]) else None
  {
    PlainIsNormal(c);
  }

  /** Type `k` of a lineage is the first in it to declare the operation. */
  ghost predicate FirstToDeclare(reg: Registry, out: seq<string>, op: string, k: nat) {
    && k < |out| && Declares(reg, out[k], op)
    && forall j :: 0 <= j < k ==> !Declares(reg, out[j], op)
  }

  predicate Declares(reg: Registry, ct: string, op: string) {
    Resolve(reg, ct).Some? && op in Resolve(reg, ct).value.operations
  }

  lemma {:induction false} FirstMatchIs(reg: Registry, op: string, out: seq<string>)
    requires Filed(reg) && forall c :: c in out ==> c in Declared(reg)
    ensures var m := FirstMatch(Declarers(reg, op), out);
            && (m == None <==> forall k :: 0 <= k < |out| ==> !Declares(reg, out[k], op))
            && (forall k: nat :: FirstToDeclare(reg, out, op, k) ==>
                  m == Some(Resolve(reg, out[k]).value.operations[op]))
  {
    if out != [] {
      assert out[0] in out;
      DeclarersResolve(reg, out[0], op);
      FirstMatchIs(reg, op, out[1..]);
      FirstsOfRest(reg, out, op);
    }
  }

  lemma FirstsOfRest(reg: Registry, out: seq<string>, op: string)
    requires out != []
    ensures forall k: nat :: FirstToDeclare(reg, out, op, k) <==>
              if k == 0 then Declares(reg, out[0], op)
              else !Declares(reg, out[0], op) && FirstToDeclare(reg, out[1..], op, k - 1)
    ensures (forall k :: 0 <= k < |out| ==> !Declares(reg, out[k], op)) <==>
              !Declares(reg, out[0], op) && forall k :: 0 <= k < |out[1..]| ==> !Declares(reg, out[1..][k], op)
  {
    var rest := out[1..];
    assert forall k :: 0 <= k < |rest| ==> rest[k] == out[k + 1];
    forall k: nat
      ensures FirstToDeclare(reg, out, op, k) <==>
                if k == 0 then Declares(reg, out[0], op)
                else !Declares(reg, out[0], op) && FirstToDeclare(reg, rest, op, k - 1)
    {
      if k > 0 && FirstToDeclare(reg, rest, op, k - 1) && !Declares(reg, out[0], op) {
        assert forall j :: 0 < j < k ==> out[j] == rest[j - 1];
      }
    }
  }

  /** An operation resolves to what the first type of the lineage that declares it resolves to declares, and to nothing
      exactly when none does. */
  lemma OperationResolves(reg: Registry, ct: string, op: string)
    requires Filed(reg)
    ensures var out := Ancestry(Inherits(reg), NormalizeCt(ct)).out; var r := ResolveOperation(reg, ct, op);
            && (r == None <==> forall k :: 0 <= k < |out| ==> !Declares(reg, out[k], op))
            && (forall k: nat :: FirstToDeclare(reg, out, op, k) ==>
                  r == Some(Resolve(reg, out[k]).value.operations[op]))
  {
    var g, c := Inherits(reg), NormalizeCt(ct);
    LineageShape(g, c);
    FirstMatchIs(reg, op, Ancestry(g, c).out);
  }

  /** A type's own operation wins, however the type is named. */
  lemma OwnOperationWins(reg: Registry, ct: string, op: string)
    requires Filed(reg) && Declares(reg, ct, op)
    ensures ResolveOperation(reg, ct, op) == Some(Resolve(reg, ct).value.operations[op])
  {
    var g, c := Inherits(reg), NormalizeCt(ct);
    LineageShape(g, c);
    NormalizeIsPlain(ct);
    PlainIsNormal(c);
    OperationResolves(reg, ct, op);
    assert FirstToDeclare(reg, Ancestry(g, c).out, op, 0);
  }

  /** So after any history the latest surviving registration of a type answers for every operation it declares,
      whatever is built in under the same name, and the builtin does where none survives. */
  lemma LatestAnswers(log: seq<Event>, reg: Registry, ct: string, op: string, i: nat)
    requires Current(log, reg.cache) && Filed(reg)
    ensures Survives(log, NormalizeCt(ct), i) && op in log[i].td.operations ==>
              ResolveOperation(reg, ct, op) == Some(log[i].td.operations[op])
    ensures (forall k: nat :: !Survives(log, NormalizeCt(ct), k)) && NormalizeCt(ct) in reg.builtin &&
            op in reg.builtin[NormalizeCt(ct)].operations ==>
              ResolveOperation(reg, ct, op) == Some(reg.builtin[NormalizeCt(ct)].operations[op])
  {
    ResolveIsLatest(log, reg, ct);
    if Declares(reg, ct, op) {
      OwnOperationWins(reg, ct, op);
    }
  }

  /** A definition just registered answers at once, with the kind, target and grant it gives. */
  lemma RegisteredAnswers(cache: map<string, TypeDef>, builtin: map<string, TypeDef>, d: Definition,
                          server: Option<string>, ct: string, op: string)
    requires Filed(Registry(cache, builtin)) && NormalizeCt(d.contentType) == NormalizeCt(ct) != ""
    requires op in d.operations
    ensures ParseTypeDef(d, server).Some?
    ensures var reg := Registry(After(cache, Registered(ParseTypeDef(d, server).value)), builtin);
            var r := ResolveOperation(reg, ct, op);
            && r.Some? && r.value.name == op && r.value.grant == d.operations[op].grant
            && r.value.kind == (if d.operations[op].kind != "" then d.operations[op].kind else "artifact_crud")
            && r.value.target == (if d.operations[op].target != "" then d.operations[op].target else op)
  {
    var td := ParseTypeDef(d, server).value;
    StaysFiled(cache, builtin, Registered(td));
    OwnOperationWins(Registry(After(cache, Registered(td)), builtin), ct, op);
  }

  // ---- a type nothing declares ----

  predicate EndsIn(ct: string, suffix: string) {
    |suffix| <= |ct| && ct[|ct| - |suffix|..] == suffix
  }

  lemma {:induction false} MajorIs(major: string, rest: string)
    requires '/' !in major
    ensures Major(major + "/" + rest) == major
  {
    if major == "" {
      assert major + "/" + rest == "/" + rest;
    } else {
      MajorIs(major[1..], rest);
      assert (major + "/" + rest)[1..] == major[1..] + "/" + rest;
    }
  }

  /** A data type is an application type of this platform's own, or one written as JSON. */
  lemma DataTypes(major: string, rest: string)
    requires '/' !in major
    ensures IsData(major + "/" + rest) <==>
              major == "application" && ("vnd.agience." <= rest || EndsIn("/" + rest, "+json"))
  {
    MajorIs(major, rest);
    if major == "application" {
      OwnPrefix(rest);
      JsonSuffix(rest);
    }
  }

  lemma OwnPrefix(rest: string)
    ensures "application/vnd.agience." <= "application" + "/" + rest <==> "vnd.agience." <= rest
  {
    var ct := "application" + "/" + rest;
    assert ct[12..] == rest;
    assert "application/vnd.agience."[12..] == "vnd.agience.";
    if "application/vnd.agience." <= ct {
      assert ct[..24][12..] == rest[..12];
    }
    if "vnd.agience." <= rest {
      assert ct[..24] == "application" + "/" + rest[..12];
    }
  }

  lemma JsonSuffix(rest: string)
    ensures EndsIn("application" + "/" + rest, "+json") <==> EndsIn("/" + rest, "+json")
  {
    var t := "/" + rest;
    assert "application" + "/" + rest == "application" + t;
    assert '/' !in "+json";
    SuffixBehind("application", t, "+json");
  }

  /** What stands before a slash does not show in an ending without one. */
  lemma SuffixBehind(a: string, t: string, suffix: string)
    requires t != "" && t[0] == '/' && '/' !in suffix
    ensures EndsIn(a + t, suffix) <==> EndsIn(t, suffix)
  {
    var w := a + t;
    if |suffix| <= |t| {
      assert w[|w| - |suffix|..] == t[|t| - |suffix|..];
    } else if |suffix| <= |w| {
      var end, k := w[|w| - |suffix|..], |suffix| - |t|;
      assert end[k] == w[|a|] == '/';
    }
  }

  /** A type nothing declares goes by its category, if that is declared and it is no data type; else by the root. */
  lemma UndeclaredLineage(g: Graph, major: string, rest: string)
    requires '/' !in major && Plain(major + "/*") && major + "/" + rest !in g
    ensures var c, wild := major + "/" + rest, major + "/*";
            var out := Ancestry(g, c).out;
            if wild in g && !IsData(c) then out != [] && out[0] == wild
            else (ROOT in g ==> out != [] && out[0] == ROOT) && forall x :: x in out ==> AtOrAbove(g, ROOT, x)
  {
    var c, wild := major + "/" + rest, major + "/*";
    MajorIs(major, rest);
    PlainIsNormal(wild);
    assert c[|major|] == '/';
    var own, kin := Walk(g, c, 0, NOTHING), Kin(g, c);
    assert own == Walked([], {c}, {});
    WalkGrows(g, ROOT, 0, kin);
    if wild in g && !IsData(c) {
      WalkAllGrows(g, g[wild], 1, Meet(g, wild, own));
    } else {
      assert kin == own || kin == Walked([], {c, wild}, {});
      LineageShape(g, c);
      WalkSound(g, ROOT, ROOT, 0, kin);
      if ROOT in g {
        WalkAllGrows(g, g[ROOT], 1, Meet(g, ROOT, kin));
      }
    }
  }
}
