/** The step list of the convert command: a string of operation names
    separated by `"->"`, each trimmed and mapped to an operator, where an
    unknown name aborts the command. */
module Convert {
  import opened Wrappers
  import opened Strings

  /** The extra mapping of the llama conversion: the bare step carries an
      empty mapping, the `to-llama:<extra>` form carries its text. */
  datatype LlamaExtra = NoExtra | Extra(text: string)

  /** The operators a step can name. The payloads of `cast`, `to-llama`,
      `filter-meta` and `filter-tensor` are handed on as text. */
  datatype Operator =
    | SortTensors
    | PermuteQK
    | MergeLinear(merge: bool)
    | ToLlama(extra: LlamaExtra)
    | Cast(types: string)
    | FilterMetaKey(key: string)
    | FilterTensorName(name: string)

  /** The message of the abort on an unknown step. */
  function Unsupported(op: string): string {
    "Unsupported operation: " + op
  }

  /** The names that take a `:<payload>` argument. */
  predicate HasPayloadName(name: string) {
    name == "cast" || name == "to-llama" || name == "filter-meta" || name == "filter-tensor"
  }

  /** The operator a trimmed step names with an argument, if its name takes one. */
  function WithPayload(name: string, arg: string): (r: Option<Operator>)
    ensures r.Some? <==> HasPayloadName(name)
  {
    if name == "cast" then Some(Cast(arg))
    else if name == "to-llama" then Some(ToLlama(Extra(arg)))
    else if name == "filter-meta" then Some(FilterMetaKey(arg))
    else if name == "filter-tensor" then Some(FilterTensorName(arg))
    else None
  }

  /** A trimmed step: the names without argument match exactly, otherwise
      the text is split once at the first `:` and the part before it names
      the operator. */
  function ParseOp(op: string): (r: Result<Operator>)
    ensures r.Failure? ==> r.error == Unsupported(op)
  {
    if op == "sort" then Success(SortTensors)
    else if op == "permute-qk" then Success(PermuteQK)
    else if op == "merge-linear" then Success(MergeLinear(true))
    else if op == "split-linear" || op == "!merge-linear" then Success(MergeLinear(false))
    else if op == "to-llama" then Success(ToLlama(NoExtra))
    else match SplitOnce(op, ':')
      case Some((name, arg)) =>
        (match WithPayload(name, arg)
         case Some(o) => Success(o)
         case None => Failure(Unsupported(op)))
      case None => Failure(Unsupported(op))
  }

  /** One step of the list: trimmed, then parsed. */
  function ParseStep(piece: string): (r: Result<Operator>)
    ensures r.Failure? ==> r.error == Unsupported(Trim(piece))
  {
    ParseOp(Trim(piece))
  }

  /** The canonical text of an operator. */
  function Render(o: Operator): (s: string)
    ensures |s| > 0 && s[0] in "cfmpst"
  {
    match o
    case SortTensors => "sort"
    case PermuteQK => "permute-qk"
    case MergeLinear(m) => if m then "merge-linear" else "split-linear"
    case ToLlama(NoExtra) => "to-llama"
    case ToLlama(Extra(t)) => "to-llama:" + t
    case Cast(t) => "cast:" + t
    case FilterMetaKey(k) => "filter-meta:" + k
    case FilterTensorName(n) => "filter-tensor:" + n
  }

  /** The text an operator carries, empty for those without one. */
  function Payload(o: Operator): string {
    match o
    case ToLlama(Extra(t)) => t
    case Cast(t) => t
    case FilterMetaKey(k) => k
    case FilterTensorName(n) => n
    case _ => ""
  }

  /** An operator whose text survives the round trip through a step list:
      its payload neither ends in whitespace (trimming would eat it) nor
      holds an arrow (splitting would cut it). */
  predicate Renderable(o: Operator) {
    var p := Payload(o);
    && (|p| > 0 ==> !IsWhitespace(p[|p| - 1]))
    && !Contains(p, Arrow)
  }

  /** The steps that name an operator without an argument. */
  const BareNames: seq<string> := ["sort", "permute-qk", "merge-linear", "split-linear", "!merge-linear", "to-llama"]

  /** A trimmed step that names an operator: one of the names without
      argument, or a payload name directly followed by `:`. */
  predicate Recognized(op: string) {
    || op in BareNames
    || exists name :: name in ["cast", "to-llama", "filter-meta", "filter-tensor"] && name + [':'] <= op
  }

  /** Splitting once at a character not in the first part finds that part. */
  lemma SplitOnceAt(name: string, arg: string, c: char)
    requires c !in name
    ensures SplitOnce(name + [c] + arg, c) == Some((name, arg))
  {
    var s := name + [c] + arg;
    assert s[|name|] == c;
    var r := SplitOnce(s, c);
    var a, b := r.value.0, r.value.1;
    assert s == a + [c] + b;
    assert a == s[..|name|] == name;
    assert b == s[|name| + 1..] == arg;
  }

  /** A step holding a `:` is no bare name: it is decided by the part
      before its first `:` alone. */
  lemma ParseOpSplit(name: string, arg: string)
    requires ':' !in name
    ensures var op := name + [':'] + arg;
      ParseOp(op) == if HasPayloadName(name) then Success(WithPayload(name, arg).value) else Failure(Unsupported(op))
  {
    var op := name + [':'] + arg;
    assert op[|name|] == ':';
    forall b | b in BareNames
      ensures op != b
    {
      assert ':' !in b;
    }
    SplitOnceAt(name, arg, ':');
  }

  /** A payload name, a `:` and any argument parse to the named operator. */
  lemma ParseNamed(name: string, arg: string)
    requires HasPayloadName(name)
    ensures ParseOp(name + [':'] + arg) == Success(WithPayload(name, arg).value)
  {
    assert ':' !in name;
    ParseOpSplit(name, arg);
  }

  /** Every recognized trimmed step parses. */
  lemma ParseOpComplete(op: string)
    requires Recognized(op)
    ensures ParseOp(op).Success?
  {
    if op !in BareNames {
      var name :| name in ["cast", "to-llama", "filter-meta", "filter-tensor"] && name + [':'] <= op;
      assert op == name + [':'] + op[|name| + 1..];
      ParseNamed(name, op[|name| + 1..]);
    }
  }

  /** Every trimmed step that parses is recognized. */
  lemma ParseOpSound(op: string)
    requires ParseOp(op).Success?
    ensures Recognized(op)
  {
    if op !in BareNames {
      var name, arg := SplitOnce(op, ':').value.0, SplitOnce(op, ':').value.1;
      assert HasPayloadName(name);
      assert op == name + [':'] + arg;
      assert op[..|name| + 1] == name + [':'];
    }
  }

  /** A trimmed step parses exactly when it is recognized. */
  lemma ParseOpAccepts(op: string)
    ensures ParseOp(op).Success? <==> Recognized(op)
  {
    if ParseOp(op).Success? {
      ParseOpSound(op);
    }
    if Recognized(op) {
      ParseOpComplete(op);
    }
  }

  /** A step parses exactly when its trimmed text is recognized. */
  lemma ParseStepAccepts(piece: string)
    ensures ParseStep(piece).Success? <==> Recognized(Trim(piece))
  {
    ParseOpAccepts(Trim(piece));
  }

  /** The operator a payload name and argument give renders as the name, a
      `:` and the argument. */
  lemma RenderNamed(name: string, arg: string)
    requires HasPayloadName(name)
    ensures Render(WithPayload(name, arg).value) == name + [':'] + arg
  {
  }

  /** A parsed trimmed step is the canonical text of its operator, or the
      `!merge-linear` alias. */
  lemma ParseOpRenders(op: string)
    requires ParseOp(op).Success?
    ensures var o := ParseOp(op).value;
      op == Render(o) || (op == "!merge-linear" && o == MergeLinear(false))
  {
    if op !in BareNames {
      var name, arg := SplitOnce(op, ':').value.0, SplitOnce(op, ':').value.1;
      assert op == name + [':'] + arg;
      assert ParseOp(op) == Success(WithPayload(name, arg).value);
      RenderNamed(name, arg);
    } else {
      assert op == "sort" || op == "permute-qk" || op == "merge-linear" || op == "split-linear" || op == "!merge-linear" || op == "to-llama";
    }
  }

  /** A parsed step is the canonical text of its operator, up to the
      surrounding whitespace and the `!merge-linear` alias. */
  lemma ParseStepRenders(piece: string)
    requires ParseStep(piece).Success?
    ensures var o := ParseStep(piece).value;
      Trim(piece) == Render(o) || (Trim(piece) == "!merge-linear" && o == MergeLinear(false))
  {
    ParseOpRenders(Trim(piece));
  }

  /** The canonical text of a renderable operator is its own trim. */
  lemma RenderTrimmed(o: Operator)
    requires Renderable(o)
    ensures Trim(Render(o)) == Render(o)
  {
    var s := Render(o);
    assert !IsWhitespace(s[0]);
    assert !IsWhitespace(s[|s| - 1]);
    TrimUnchanged(s);
  }

  /** The canonical text of an operator parses back to that operator. */
  lemma ParseOpRender(o: Operator)
    ensures ParseOp(Render(o)) == Success(o)
  {
    match o
    case ToLlama(Extra(t)) =>
      assert Render(o) == "to-llama" + [':'] + t;
      ParseNamed("to-llama", t);
    case Cast(t) =>
      assert Render(o) == "cast" + [':'] + t;
      ParseNamed("cast", t);
    case FilterMetaKey(k) =>
      assert Render(o) == "filter-meta" + [':'] + k;
      ParseNamed("filter-meta", k);
    case FilterTensorName(n) =>
      assert Render(o) == "filter-tensor" + [':'] + n;
      ParseNamed("filter-tensor", n);
    case _ =>
  }

  /** The canonical text of a renderable operator, as a step, parses back to
      that operator. */
  lemma ParseRender(o: Operator)
    requires Renderable(o)
    ensures ParseStep(Render(o)) == Success(o)
  {
    RenderTrimmed(o);
    ParseOpRender(o);
  }

  /** The results in order, or the first failure among them. */
  function Collect<T>(rs: seq<Result<T>>): (r: Result<seq<T>>)
    ensures r.Success? <==> forall k :: 0 <= k < |rs| ==> rs[k].Success?
    ensures r.Success? ==> |r.value| == |rs|
    ensures r.Success? ==> forall k :: 0 <= k < |rs| ==> rs[k] == Success(r.value[k])
  {
    if |rs| == 0 then Success([])
    else if rs[0].Failure? then Failure(rs[0].error)
    else
      var tail := Collect(rs[1..]);
      assert forall k :: 1 <= k < |rs| ==> rs[k] == rs[1..][k - 1];
      if tail.Failure? then Failure(tail.error)
      else Success([rs[0].value] + tail.value)
  }

  /** The collected failure is the first failing result's. */
  lemma {:induction false} CollectFirstFailure<T>(rs: seq<Result<T>>, k: nat)
    requires k < |rs| && rs[k].Failure?
    requires forall j :: 0 <= j < k ==> rs[j].Success?
    ensures Collect(rs) == Failure(rs[k].error)
  {
    if k > 0 {
      var tail := rs[1..];
      assert tail[k - 1] == rs[k];
      forall j | 0 <= j < k - 1
        ensures tail[j].Success?
      {
        assert tail[j] == rs[j + 1];
      }
      CollectFirstFailure(tail, k - 1);
    }
  }

  /** The result of each piece, in order. */
  function Steps(pieces: seq<string>): (rs: seq<Result<Operator>>)
    ensures |rs| == |pieces|
    ensures forall k :: 0 <= k < |pieces| ==> rs[k] == ParseStep(pieces[k])
  {
    seq(|pieces|, k requires 0 <= k < |pieces| => ParseStep(pieces[k]))
  }

  /** Every piece parses. */
  predicate AllParse(pieces: seq<string>) {
    forall k :: 0 <= k < |pieces| ==> ParseStep(pieces[k]).Success?
  }

  /** Every piece in order; the first piece that fails aborts the list. */
  function ParseAll(pieces: seq<string>): (r: Result<seq<Operator>>)
    ensures r.Success? <==> AllParse(pieces)
    ensures r.Success? ==> |r.value| == |pieces|
    ensures r.Success? ==> forall k :: 0 <= k < |pieces| ==> ParseStep(pieces[k]) == Success(r.value[k])
  {
    Collect(Steps(pieces))
  }

  /** A list whose first failing piece is `k` fails with that piece's error. */
  lemma ParseAllFirstFailure(pieces: seq<string>, k: nat)
    requires k < |pieces| && ParseStep(pieces[k]).Failure?
    requires forall j :: 0 <= j < k ==> ParseStep(pieces[j]).Success?
    ensures ParseAll(pieces) == Failure(Unsupported(Trim(pieces[k])))
  {
    CollectFirstFailure(Steps(pieces), k);
  }

  /** The `--steps` argument: split on `"->"` and parse every piece. It
      succeeds exactly when every piece parses, and then holds one operator
      per piece, in order. */
  function ParseSteps(steps: string): (r: Result<seq<Operator>>)
    ensures r.Success? <==> AllParse(Split(steps, Arrow))
    ensures r.Success? ==> |r.value| == |Split(steps, Arrow)| >= 1
    ensures var pieces := Split(steps, Arrow);
      r.Success? ==> forall k :: 0 <= k < |pieces| ==> ParseStep(pieces[k]) == Success(r.value[k])
  {
    var pieces := Split(steps, Arrow);
    var r := ParseAll(pieces);
    assert r.Success? ==> forall k :: 0 <= k < |pieces| ==> ParseStep(pieces[k]) == Success(r.value[k]);
    r
  }

  /** When piece `k` is the first that does not parse, the whole argument
      fails with that piece's error. */
  lemma ParseStepsFirstFailure(steps: string, k: nat)
    requires var pieces := Split(steps, Arrow);
      && k < |pieces| && ParseStep(pieces[k]).Failure?
      && forall j :: 0 <= j < k ==> ParseStep(pieces[j]).Success?
    ensures ParseSteps(steps) == Failure(Unsupported(Trim(Split(steps, Arrow)[k])))
  {
    ParseAllFirstFailure(Split(steps, Arrow), k);
  }

  /** The canonical texts of the operators. */
  function RenderAll(ops: seq<Operator>): (texts: seq<string>)
    ensures |texts| == |ops|
    ensures forall k :: 0 <= k < |ops| ==> texts[k] == Render(ops[k])
  {
    seq(|ops|, k requires 0 <= k < |ops| => Render(ops[k]))
  }

  /** A text without an arrow followed by one that does not begin one, after
      a last character that is not `-`, has no arrow. */
  lemma NoArrowConcat(a: string, b: string)
    requires !Contains(a, Arrow) && !Contains(b, Arrow)
    requires |a| > 0 && a[|a| - 1] != '-'
    ensures !Contains(a + b, Arrow)
  {
    var s := a + b;
    forall i | 0 <= i <= |s|
      ensures !OccursAt(s, Arrow, i)
    {
      if i + 2 <= |s| {
        if i + 2 <= |a| {
          assert s[i..i + 2] == a[i..i + 2];
          assert !OccursAt(a, Arrow, i);
        } else if i >= |a| {
          assert s[i..i + 2] == b[i - |a|..i - |a| + 2];
          assert !OccursAt(b, Arrow, i - |a|);
        } else {
          assert s[i..i + 2][0] == a[|a| - 1];
        }
      }
    }
  }

  /** A text without `>` has no arrow. */
  lemma NoArrowIn(s: string)
    requires '>' !in s
    ensures !Contains(s, Arrow)
  {
    forall i | 0 <= i <= |s|
      ensures !OccursAt(s, Arrow, i)
    {
      if i + 2 <= |s| {
        assert s[i..i + 2][1] == s[i + 1];
      }
    }
  }

  /** A renderable operator's canonical text has no arrow. */
  lemma RenderNoArrow(o: Operator)
    requires Renderable(o)
    ensures !Contains(Render(o), Arrow)
  {
    match o
    case ToLlama(Extra(t)) => NoArrowIn("to-llama:"); NoArrowConcat("to-llama:", t);
    case Cast(t) => NoArrowIn("cast:"); NoArrowConcat("cast:", t);
    case FilterMetaKey(k) => NoArrowIn("filter-meta:"); NoArrowConcat("filter-meta:", k);
    case FilterTensorName(n) => NoArrowIn("filter-tensor:"); NoArrowConcat("filter-tensor:", n);
    case ToLlama(NoExtra) => NoArrowIn("to-llama");
    case MergeLinear(m) => if m { NoArrowIn("merge-linear"); } else { NoArrowIn("split-linear"); }
    case SortTensors => NoArrowIn("sort");
    case PermuteQK => NoArrowIn("permute-qk");
  }

  /** A non-empty list of renderable operators, written as canonical texts
      joined by `"->"`, parses back to the same list. */
  lemma ParseStepsRoundTrip(ops: seq<Operator>)
    requires |ops| >= 1
    requires forall k :: 0 <= k < |ops| ==> Renderable(ops[k])
    ensures ParseSteps(Join(RenderAll(ops), Arrow)) == Success(ops)
  {
    var texts := RenderAll(ops);
    forall k | 0 <= k < |texts|
      ensures !Contains(texts[k], Arrow)
    {
      RenderNoArrow(ops[k]);
    }
    SplitJoin(texts);
    forall k | 0 <= k < |texts|
      ensures ParseStep(texts[k]) == Success(ops[k])
    {
      ParseRender(ops[k]);
    }
    var r := ParseAll(texts);
    assert r.Success?;
    assert r.value == ops;
  }

  /** An empty step list names no operator. */
  lemma EmptyStepsFail()
    ensures ParseSteps("") == Failure(Unsupported(""))
  {
    assert FindFrom("", Arrow, 0).None?;
    assert Split("", Arrow) == [""];
    assert Trim("") == "";
  }

  /** Only the first `:` separates name and argument; the argument keeps the rest. */
  lemma CastKeepsColons()
    ensures ParseStep("cast:a:b") == Success(Cast("a:b"))
  {
    var o := Cast("a:b");
    assert Renderable(o) by {
      NoArrowIn("a:b");
    }
    assert Render(o) == "cast:a:b";
    ParseRender(o);
  }

  /** The name must be followed directly by `:`: whitespace between a payload
      name and the `:` stays inside the trimmed step, and the step is then
      unsupported. */
  lemma SpacedNameFails(name: string, ws: string, arg: string)
    requires HasPayloadName(name)
    requires |ws| > 0 && forall i :: 0 <= i < |ws| ==> IsWhitespace(ws[i])
    ensures var op := name + ws + [':'] + arg;
      ParseOp(op) == Failure(Unsupported(op))
  {
    var spaced := name + ws;
    assert spaced[|spaced| - 1] == ws[|ws| - 1];
    forall i | 0 <= i < |ws|
      ensures ws[i] != ':'
    {
      assert IsWhitespace(ws[i]);
    }
    assert ':' !in name;
    assert ':' !in spaced;
    ParseOpSplit(spaced, arg);
    assert spaced + [':'] + arg == name + ws + [':'] + arg;
  }

  /** A name that takes no argument rejects one: `sort:x` is no step. */
  lemma BareNameWithArgumentFails(name: string, arg: string)
    requires name in BareNames && name != "to-llama"
    ensures ParseOp(name + [':'] + arg) == Failure(Unsupported(name + [':'] + arg))
  {
    assert ':' !in name && !HasPayloadName(name);
    ParseOpSplit(name, arg);
  }
}
