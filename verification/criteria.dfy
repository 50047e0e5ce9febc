/** The criterion engine of CVFS.java: `SimpleCriterion` (validated when it is
    built), `IsDocumentCriterion`, `NegationCriterion` and `BinaryCriterion`,
    each with `evaluate` and `toString`. */
module Criteria {
  import opened Wrappers
  import opened Errors
  import Text
  import opened Nodes

  datatype Criterion =
    | Simple(attrName: string, op: string, val: string)
    | IsDocument
    | Negation(inner: Criterion)
    | Binary(left: Criterion, logicOp: string, right: Criterion)

  /** The operators `size` accepts: `>|<|>=|<=|==|!=` matched against the whole operator. */
  const SizeOperators: set<string> := {">", "<", ">=", "<=", "==", "!="}

  /** `SimpleCriterion.validate`: `name` needs `contains`, `type` needs
      `equals`, `size` needs a comparison operator and then an integer value;
      any other attribute is rejected. */
  function Validate(attrName: string, op: string, val: string): (r: Outcome<Error>)
    ensures r.Pass? <==>
      || (attrName == "name" && op == "contains")
      || (attrName == "type" && op == "equals")
      || (attrName == "size" && op in SizeOperators && Text.ParseInt(val).Some?)
    ensures attrName != "name" && attrName != "type" && attrName != "size" ==> r == Fail(InvalidAttribute)
    ensures attrName == "size" && op in SizeOperators && Text.ParseInt(val).None? ==> r == Fail(ValueNotInteger)
  {
    match attrName
    case "name" => if op == "contains" then Pass else Fail(InvalidNameOperator)
    case "type" => if op == "equals" then Pass else Fail(InvalidTypeOperator)
    case "size" =>
      if op !in SizeOperators then Fail(InvalidSizeOperator)
      else if Text.ParseInt(val).None? then Fail(ValueNotInteger)
      else Pass
    case _ => Fail(InvalidAttribute)
  }

  /** A criterion the constructors accept: every simple part validated, every
      binary operator the literal `&&` or `||`. */
  predicate WellFormed(c: Criterion)
  {
    match c
    case Simple(a, o, v) => Validate(a, o, v).Pass?
    case IsDocument => true
    case Negation(inner) => WellFormed(inner)
    case Binary(l, o, r) => (o == "&&" || o == "||") && WellFormed(l) && WellFormed(r)
  }

  /** `new SimpleCriterion(attrName, op, val)`. */
  function MakeSimple(attrName: string, op: string, val: string): (r: Result<Criterion, Error>)
    ensures r.Success? <==> Validate(attrName, op, val).Pass?
    ensures r.Success? ==> WellFormed(r.value) && r.value == Simple(attrName, op, val)
  {
    match Validate(attrName, op, val)
    case Pass => Success(Simple(attrName, op, val))
    case Fail(e) => Failure(e)
  }

  /** `new BinaryCriterion(c1, logicOp, c2)`. */
  function MakeBinary(c1: Criterion, logicOp: string, c2: Criterion): (r: Result<Criterion, Error>)
    requires WellFormed(c1) && WellFormed(c2)
    ensures r.Success? <==> logicOp == "&&" || logicOp == "||"
    ensures r.Failure? ==> r.error == InvalidLogicOp
    ensures r.Success? ==> WellFormed(r.value) && r.value == Binary(c1, logicOp, c2)
  {
    if logicOp != "&&" && logicOp != "||" then Failure(InvalidLogicOp) else Success(Binary(c1, logicOp, c2))
  }

  /** The inner `switch (op)` of `size`: the six comparisons, `false` otherwise. */
  function CompareSize(fileSize: int, op: string, sizeVal: int): bool
  {
    match op
    case ">" => fileSize > sizeVal
    case "<" => fileSize < sizeVal
    case ">=" => fileSize >= sizeVal
    case "<=" => fileSize <= sizeVal
    case "==" => fileSize == sizeVal
    case "!=" => fileSize != sizeVal
    case _ => false
  }

  /** `evaluate(file)`. `name` is a case-sensitive substring test; `type` is
      false for every directory; `size` compares `getSize()` with the value;
      `&&` and `||` short-circuit, which has no observable effect here since
      evaluation has no side effects. Every node is at least 40 bytes, so a
      size bound below 40 is met by every node or by none. */
  function Eval(c: Criterion, h: Heap, id: NodeId): (r: bool)
    requires Valid(h) && id in h.nodes && WellFormed(c)
    ensures c.IsDocument? ==> (r <==> h.nodes[id].Document?)
    ensures c.Simple? && c.attrName == "type" && r ==> h.nodes[id].Document? && h.nodes[id].docType == c.val
    ensures c.Simple? && c.attrName == "name" && c.val == [] ==> r
    ensures c.Simple? && c.attrName == "name" && r ==> |c.val| <= |h.nodes[id].name|
    ensures c.Simple? && c.attrName == "size" && Text.ParseInt(c.val).value < BaseFileSize ==>
      (r <==> c.op == ">" || c.op == ">=" || c.op == "!=")
  {
    match c
    case Simple(attrName, op, val) =>
      (match attrName
       case "name" => Text.Contains(h.nodes[id].name, val)
       case "type" => h.nodes[id].Document? && h.nodes[id].docType == val
       case "size" => CompareSize(Size(h, id), op, Text.ParseInt(val).value)
       case _ => false)
    case IsDocument => h.nodes[id].Document?
    case Negation(inner) => !Eval(inner, h, id)
    case Binary(l, logicOp, r) =>
      (match logicOp
       case "&&" => Eval(l, h, id) && Eval(r, h, id)
       case "||" => Eval(l, h, id) || Eval(r, h, id)
       case _ => false)
  }

  /** `toString()`: a rendering of the criterion's structure; its first
      character tells a binary criterion (`(`) and a negation (`!`) apart from
      the others. */
  function Describe(c: Criterion): (r: string)
    ensures |r| > 0
    ensures r[0] == '(' <==> c.Binary?
    ensures r[0] == '!' <==> c.Negation?
    ensures (c.Binary? || c.Negation?) ==> r[|r| - 1] == ')'
  {
    match c
    case Simple(a, o, v) => "attrName: " + a + ", op: " + o + ", val: " + v
    case IsDocument => "IsDocument"
    case Negation(inner) => "!( " + Describe(inner) + " )"
    case Binary(l, o, r) => "( " + Describe(l) + " ) " + o + " ( " + Describe(r) + " )"
  }

  /** Two nodes that agree on name, kind, document type and size. */
  ghost predicate SameAttributes(h1: Heap, id1: NodeId, h2: Heap, id2: NodeId)
    requires Valid(h1) && id1 in h1.nodes && Valid(h2) && id2 in h2.nodes
  {
    var n1, n2 := h1.nodes[id1], h2.nodes[id2];
    && n1.name == n2.name
    && n1.Document? == n2.Document?
    && (n1.Document? ==> n1.docType == n2.docType)
    && Size(h1, id1) == Size(h2, id2)
  }

  /** A criterion sees a node only through its name, kind, type and size:
      nodes that agree on those are matched alike, by every criterion. */
  lemma {:induction false} EvalSeesOnlyAttributes(c: Criterion, h1: Heap, id1: NodeId, h2: Heap, id2: NodeId)
    requires Valid(h1) && id1 in h1.nodes && Valid(h2) && id2 in h2.nodes && WellFormed(c)
    requires SameAttributes(h1, id1, h2, id2)
    ensures Eval(c, h1, id1) == Eval(c, h2, id2)
  {
    match c
    case Simple(_, _, _) =>
    case IsDocument =>
    case Negation(inner) =>
      EvalSeesOnlyAttributes(inner, h1, id1, h2, id2);
    case Binary(l, _, r) =>
      EvalSeesOnlyAttributes(l, h1, id1, h2, id2);
      EvalSeesOnlyAttributes(r, h1, id1, h2, id2);
  }

  /** `IsDocument && size > 40` matches exactly the documents with non-empty
      content. */
  lemma NonEmptyDocuments(h: Heap, id: NodeId)
    requires Valid(h) && id in h.nodes
    ensures WellFormed(Binary(IsDocument, "&&", Simple("size", ">", "40")))
    ensures Eval(Binary(IsDocument, "&&", Simple("size", ">", "40")), h, id)
        <==> h.nodes[id].Document? && |h.nodes[id].content| > 0
  {
    Text.ParseIntToString(40);
    assert Text.IntToString(40) == "40" by {
      assert Text.NatToString(4) == "4";
    }
  }

  function Count(s: string, ch: char): nat
  {
    if s == [] then 0 else Count(s[..|s| - 1], ch) + (if s[|s| - 1] == ch then 1 else 0)
  }

  lemma {:induction false} CountConcat(a: string, b: string, ch: char)
    ensures Count(a + b, ch) == Count(a, ch) + Count(b, ch)
    decreases |b|
  {
    if b == [] {
      assert a + b == a;
    } else {
      CountConcat(a, b[..|b| - 1], ch);
      assert (a + b)[..|a + b| - 1] == a + b[..|b| - 1];
    }
  }

  /** No simple part of the criterion holds a parenthesis in its strings. */
  predicate ParenFree(c: Criterion)
  {
    match c
    case Simple(a, o, v) => '(' !in a + o + v && ')' !in a + o + v
    case IsDocument => true
    case Negation(inner) => ParenFree(inner)
    case Binary(l, o, r) => '(' !in o && ')' !in o && ParenFree(l) && ParenFree(r)
  }

  lemma {:induction false} CountAbsent(s: string, ch: char)
    requires ch !in s
    ensures Count(s, ch) == 0
    decreases |s|
  {
    if s != [] {
      CountAbsent(s[..|s| - 1], ch);
    }
  }

  /** The counts of the literal pieces `toString` adds around its parts. */
  lemma LiteralCounts()
    ensures Count("( ", '(') == 1 && Count("( ", ')') == 0
    ensures Count(" ) ", '(') == 0 && Count(" ) ", ')') == 1
    ensures Count(" ( ", '(') == 1 && Count(" ( ", ')') == 0
    ensures Count(" )", '(') == 0 && Count(" )", ')') == 1
    ensures Count("!( ", '(') == 1 && Count("!( ", ')') == 0
  {
    assert "( "[..1] == "(" && " ) "[..2] == " )" && " ( "[..2] == " (" && "!( "[..2] == "!(";
    assert " )"[..1] == " " && " ("[..1] == " " && "!("[..1] == "!";
  }

  lemma CountNegation(d: string, ch: char)
    ensures Count("!( " + d + " )", ch) == Count("!( ", ch) + Count(d, ch) + Count(" )", ch)
  {
    CountConcat("!( " + d, " )", ch);
    CountConcat("!( ", d, ch);
  }

  lemma CountBinary(dl: string, o: string, dr: string, ch: char)
    ensures Count("( " + dl + " ) " + o + " ( " + dr + " )", ch)
         == Count("( ", ch) + Count(dl, ch) + Count(" ) ", ch) + Count(o, ch)
          + Count(" ( ", ch) + Count(dr, ch) + Count(" )", ch)
  {
    CountConcat("( " + dl + " ) " + o + " ( " + dr, " )", ch);
    CountConcat("( " + dl + " ) " + o + " ( ", dr, ch);
    CountConcat("( " + dl + " ) " + o, " ( ", ch);
    CountConcat("( " + dl + " ) ", o, ch);
    CountConcat("( " + dl, " ) ", ch);
    CountConcat("( ", dl, ch);
  }

  lemma SimpleParenFree(a: string, o: string, v: string)
    requires '(' !in a + o + v && ')' !in a + o + v
    ensures Count("attrName: " + a + ", op: " + o + ", val: " + v, '(') == 0
    ensures Count("attrName: " + a + ", op: " + o + ", val: " + v, ')') == 0
  {
    var t := "attrName: " + a + ", op: " + o + ", val: " + v;
    forall i | 0 <= i < |t|
      ensures t[i] != '(' && t[i] != ')'
    {
      if i >= 10 && i < 10 + |a| {
        assert t[i] == (a + o + v)[i - 10];
      } else if i >= 16 + |a| && i < 16 + |a| + |o| {
        assert t[i] == (a + o + v)[i - 16];
      } else if i >= 23 + |a| + |o| {
        assert t[i] == (a + o + v)[i - 23];
      }
    }
    CountAbsent(t, '(');
    CountAbsent(t, ')');
  }

  /** The rendering brackets each composite part: when the simple parts hold no
      parentheses, it has as many `(` as `)`, so composites nest properly. */
  lemma {:induction false} DescribeBalanced(c: Criterion)
    requires ParenFree(c)
    ensures Count(Describe(c), '(') == Count(Describe(c), ')')
  {
    match c
    case Simple(a, o, v) =>
      SimpleParenFree(a, o, v);
    case IsDocument =>
      CountAbsent("IsDocument", '(');
      CountAbsent("IsDocument", ')');
    case Negation(inner) =>
      DescribeBalanced(inner);
      LiteralCounts();
      CountNegation(Describe(inner), '(');
      CountNegation(Describe(inner), ')');
    case Binary(l, o, r) =>
      DescribeBalanced(l);
      DescribeBalanced(r);
      LiteralCounts();
      CountAbsent(o, '(');
      CountAbsent(o, ')');
      CountBinary(Describe(l), o, Describe(r), '(');
      CountBinary(Describe(l), o, Describe(r), ')');
  }
}
