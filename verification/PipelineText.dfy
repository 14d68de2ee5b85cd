/** Parsing of pass pipeline text: MbPassBuilder::parsePipelineText in compilerutils/lib/ModuleBunch.cpp.

A pipeline is a sequence of named elements, each with an inner pipeline.  The module proves that
the parser and the obvious printer are inverse to each other, says exactly which texts are
accepted, and shows that the stack of pointers into nested vectors stays valid.
*/
module PipelineText {
  datatype Option<T> = None | Some(value: T)

  datatype Element = Element(name: string, inner: seq<Element>)

  type Pipeline = seq<Element>

  predicate IsSeparator(c: char) { c == ',' || c == '(' || c == ')' }

  predicate CleanName(name: string)
  {
    forall i :: 0 <= i < |name| ==> !IsSeparator(name[i])
  }

  // ----- printing -----

  function PrintElement(e: Element): string
    decreases e, 0
  {
    e.name + if e.inner == [] then "" else "(" + Print(e.inner) + ")"
  }

  function Print(p: Pipeline): string
    decreases p, 1
  {
    if p == [] then "" else PrintElement(p[0]) + PrintRest(p[1..])
  }

  /** The elements after the first one, each behind a comma. */
  function PrintRest(p: Pipeline): string
    decreases p, 1
  {
    if p == [] then "" else "," + PrintElement(p[0]) + PrintRest(p[1..])
  }

  predicate ValidElement(e: Element)
    decreases e, 0
  {
    CleanName(e.name) && (e.inner == [] || ValidElements(e.inner))
  }

  predicate ValidElements(p: Pipeline)
    decreases p, 1
  {
    forall i :: 0 <= i < |p| ==> ValidElement(p[i])
  }

  /** A pipeline that has a text: not empty, and no name contains a separator. */
  predicate Valid(p: Pipeline) { p != [] && ValidElements(p) }

  // ----- acceptable texts -----

  /** Open parentheses minus closing ones. */
  function Nesting(text: string): int
  {
    if text == "" then 0
    else Nesting(text[..|text| - 1]) + (if text[|text| - 1] == '(' then 1 else if text[|text| - 1] == ')' then -1 else 0)
  }

  /** Parentheses are balanced, and a closing one is followed by a comma, another closing one, or the end. */
  ghost predicate Acceptable(text: string)
  {
    Nesting(text) == 0 && (forall n :: 0 <= n <= |text| ==> Nesting(text[..n]) >= 0) &&
    forall i :: 0 <= i < |text| - 1 && text[i] == ')' ==> text[i + 1] == ',' || text[i + 1] == ')'
  }

  lemma {:induction false} NestingAdds(a: string, b: string)
    ensures Nesting(a + b) == Nesting(a) + Nesting(b)
    decreases |b|
  {
    if b == "" {
      assert a + b == a;
    } else {
      assert (a + b)[..|a + b| - 1] == a + b[..|b| - 1];
      NestingAdds(a, b[..|b| - 1]);
    }
  }

  /** Names are followed by their inner pipelines in parentheses, and elements are separated by commas. */
  lemma PrintedText(a: string, b: string, c: string)
    ensures Print([Element(a, [Element(b, []), Element(c, [])]), Element(b, [])]) == a + "(" + b + "," + c + ")" + "," + b
  {
    var inner := [Element(b, []), Element(c, [])];
    assert PrintElement(Element(b, [])) == b && PrintElement(Element(c, [])) == c;
    assert PrintRest([Element(c, [])]) == "," + c && PrintRest([Element(b, [])]) == "," + b;
    assert Print(inner) == b + "," + c;
    var p := [Element(a, inner), Element(b, [])];
    assert PrintElement(p[0]) == a + "(" + Print(inner) + ")";
    assert p[1..] == [Element(b, [])];
  }

  /** Names end at commas and parentheses, and nowhere else. */
  lemma NameCharacters(c: char)
    ensures CleanName([c]) <==> c != ',' && c != '(' && c != ')'
  {
    assert [c][0] == c;
  }

  /** Texts that are not accepted: unbalanced ones, and an element right behind a closing parenthesis. */
  lemma Unacceptable(name: string)
    requires name != "" && CleanName(name)
    ensures !Acceptable("(") && !Acceptable(")") && !Acceptable(")(") && !Acceptable("()" + name) && !Acceptable("()(")
  {
    NestingOfOne('(');
    NestingOfOne(')');
    assert ")("[..1] == ")";
    var t, u := "()" + name, "()(";
    assert t[1] == ')' && t[2] == name[0] && u[1] == ')' && u[2] == '(';
  }

  // ----- the printed text determines the pipeline -----

  predicate EndsName(rest: string) { rest == "" || IsSeparator(rest[0]) }

  lemma NameUnique(a: string, b: string, s: string, t: string)
    requires CleanName(a) && CleanName(b) && EndsName(s) && EndsName(t) && a + s == b + t
    ensures a == b && s == t
  {
    var u := a + s;
    assert (s != "" ==> u[|a|] == s[0]) && (t != "" ==> u[|b|] == t[0]);
    assert (forall i :: 0 <= i < |a| ==> u[i] == a[i]) && forall i :: 0 <= i < |b| ==> u[i] == b[i];
    assert |a| == |b|;
    assert a == u[..|a|] == b && s == u[|a|..] == t;
  }

  /** What may follow an element: the end, a comma, or a closing parenthesis. */
  predicate EndsElement(rest: string) { rest == "" || rest[0] == ',' || rest[0] == ')' }

  /** What may follow a pipeline. */
  predicate EndsPipeline(rest: string) { rest == "" || rest[0] == ')' }

  /** The text of an element after its name. */
  function Tail(e: Element): string { if e.inner == [] then "" else "(" + Print(e.inner) + ")" }

  lemma {:induction false} ElementUnique(e: Element, f: Element, s: string, t: string)
    requires ValidElement(e) && ValidElement(f) && EndsElement(s) && EndsElement(t)
    requires PrintElement(e) + s == PrintElement(f) + t
    ensures e == f && s == t
    decreases e, 0
  {
    hide Print;
    assert PrintElement(e) + s == e.name + (Tail(e) + s) && PrintElement(f) + t == f.name + (Tail(f) + t);
    NameUnique(e.name, f.name, Tail(e) + s, Tail(f) + t);
    TailBegins(e, s);
    TailBegins(f, t);
    if e.inner != [] {
      Unwrap(Print(e.inner), s);
      Unwrap(Print(f.inner), t);
      PipelineUnique(e.inner, f.inner, ")" + s, ")" + t);
      assert s == (")" + s)[1..] && t == (")" + t)[1..];
    }
  }

  lemma TailBegins(e: Element, rest: string)
    ensures if e.inner == [] then Tail(e) + rest == rest else Tail(e) + rest != "" && (Tail(e) + rest)[0] == '('
  {
    hide Print;
  }

  lemma Unwrap(inner: string, rest: string)
    ensures ("(" + inner + ")" + rest)[1..] == inner + (")" + rest)
  {
  }

  lemma PrintSplits(p: Pipeline, s: string)
    requires p != []
    ensures Print(p) + s == PrintElement(p[0]) + (PrintRest(p[1..]) + s)
    ensures PrintRest(p) + s == "," + (PrintElement(p[0]) + (PrintRest(p[1..]) + s))
  {
    hide PrintElement;
  }

  lemma RestEnds(p: Pipeline, s: string)
    requires EndsPipeline(s)
    ensures EndsElement(PrintRest(p) + s)
    ensures p == [] ==> PrintRest(p) + s == s
    ensures p != [] ==> PrintRest(p) + s != "" && (PrintRest(p) + s)[0] == ','
  {
    hide PrintElement;
  }

  lemma {:induction false} PipelineUnique(p: Pipeline, q: Pipeline, s: string, t: string)
    requires Valid(p) && Valid(q) && EndsPipeline(s) && EndsPipeline(t) && Print(p) + s == Print(q) + t
    ensures p == q && s == t
    decreases p, 1
  {
    hide Print;
    hide PrintElement;
    hide PrintRest;
    PrintSplits(p, s);
    PrintSplits(q, t);
    RestEnds(p[1..], s);
    RestEnds(q[1..], t);
    ElementUnique(p[0], q[0], PrintRest(p[1..]) + s, PrintRest(q[1..]) + t);
    RestUnique(p[1..], q[1..], s, t);
    assert p == [p[0]] + p[1..] && q == [q[0]] + q[1..];
  }

  lemma {:induction false} RestUnique(p: Pipeline, q: Pipeline, s: string, t: string)
    requires ValidElements(p) && ValidElements(q) && EndsPipeline(s) && EndsPipeline(t)
    requires PrintRest(p) + s == PrintRest(q) + t
    ensures p == q && s == t
    decreases p, 1
  {
    hide PrintElement;
    hide PrintRest;
    RestEnds(p, s);
    RestEnds(q, t);
    if p != [] {
      assert q != [];
      PrintSplits(p, s);
      PrintSplits(q, t);
      var x, y := PrintRest(p[1..]) + s, PrintRest(q[1..]) + t;
      assert PrintElement(p[0]) + x == ("," + (PrintElement(p[0]) + x))[1..];
      assert PrintElement(q[0]) + y == ("," + (PrintElement(q[0]) + y))[1..];
      RestEnds(p[1..], s);
      RestEnds(q[1..], t);
      ElementUnique(p[0], q[0], x, y);
      RestUnique(p[1..], q[1..], s, t);
      assert p == [p[0]] + p[1..] && q == [q[0]] + q[1..];
    }
  }

  // ----- every printed text is acceptable -----

  lemma Joined(a: string, b: string)
    requires Acceptable(a) && Acceptable(b)
    requires a == "" || b == "" || a[|a| - 1] != ')' || b[0] == ',' || b[0] == ')'
    ensures Acceptable(a + b)
  {
    var u := a + b;
    NestingAdds(a, b);
    forall n | 0 <= n <= |u|
      ensures Nesting(u[..n]) >= 0
    {
      if n <= |a| {
        assert u[..n] == a[..n];
      } else {
        assert u[..n] == a + b[..n - |a|];
        NestingAdds(a, b[..n - |a|]);
      }
    }
  }

  lemma Wrapped(a: string)
    requires Acceptable(a)
    ensures Acceptable("(" + a + ")")
  {
    var u := "(" + a + ")";
    NestingOfOne('(');
    NestingOfOne(')');
    NestingAdds("(", a);
    NestingAdds("(" + a, ")");
    forall n | 0 <= n <= |u|
      ensures Nesting(u[..n]) >= 0
    {
      if n == 0 {
        assert u[..n] == "";
      } else if n <= |a| + 1 {
        assert u[..n] == "(" + a[..n - 1];
        NestingAdds("(", a[..n - 1]);
      } else {
        assert u[..n] == u;
      }
    }
  }

  lemma NestingOfOne(c: char)
    ensures Nesting([c]) == if c == '(' then 1 else if c == ')' then -1 else 0
  {
    assert [c][..0] == "";
  }

  lemma {:induction false} NameAcceptable(name: string)
    requires forall i :: 0 <= i < |name| ==> name[i] != '(' && name[i] != ')'
    ensures Acceptable(name)
    decreases |name|
  {
    if name != "" {
      var shorter := name[..|name| - 1];
      NameAcceptable(shorter);
      forall n | 0 <= n <= |name|
        ensures Nesting(name[..n]) >= 0
      {
        if n < |name| {
          assert name[..n] == shorter[..n];
        } else {
          assert name[..n] == name;
        }
      }
    }
  }

  lemma {:induction false} ElementAcceptable(e: Element)
    requires ValidElement(e)
    ensures Acceptable(PrintElement(e))
    decreases e, 0
  {
    hide Acceptable;
    NameAcceptable(e.name);
    if e.inner != [] {
      PipelineAcceptable(e.inner);
      Wrapped(Print(e.inner));
      Joined(e.name, "(" + Print(e.inner) + ")");
    } else {
      assert PrintElement(e) == e.name;
    }
  }

  lemma {:induction false} PipelineAcceptable(p: Pipeline)
    requires ValidElements(p)
    ensures Acceptable(Print(p))
    decreases p, 2
  {
    hide Acceptable;
    if p == [] {
      NameAcceptable("");
    } else {
      ElementAcceptable(p[0]);
      RestAcceptable(p[1..]);
      Joined(PrintElement(p[0]), PrintRest(p[1..]));
    }
  }

  lemma {:induction false} RestAcceptable(p: Pipeline)
    requires ValidElements(p)
    ensures Acceptable(PrintRest(p))
    decreases p, 1
  {
    hide Acceptable;
    NameAcceptable("");
    if p != [] {
      ElementAcceptable(p[0]);
      RestAcceptable(p[1..]);
      NameAcceptable(",");
      Joined(",", PrintElement(p[0]));
      Joined("," + PrintElement(p[0]), PrintRest(p[1..]));
    }
  }

  // ----- pointers into nested vectors -----

  /** A pointer to a pipeline inside the result: the element indices that lead to it. */
  type Pointer = seq<nat>

  /** The pointer leads along the last elements, so that no other element hangs below it. */
  predicate OnSpine(root: Pipeline, p: Pointer)
    decreases |p|
  {
    p == [] || (root != [] && p[0] == |root| - 1 && OnSpine(root[|root| - 1].inner, p[1..]))
  }

  function Deref(root: Pipeline, p: Pointer): Pipeline
    requires OnSpine(root, p)
    decreases |p|
  {
    if p == [] then root else Deref(root[|root| - 1].inner, p[1..])
  }

  /** push_back on the pipeline that a pointer leads to. */
  function PushBack(root: Pipeline, p: Pointer, e: Element): (r: Pipeline)
    requires OnSpine(root, p)
    ensures r != []
    decreases |p|
  {
    if p == [] then root + [e]
    else
      var last := root[|root| - 1];
      root[|root| - 1 := Element(last.name, PushBack(last.inner, p[1..], e))]
  }

  /** The stack: the result itself at the bottom, and each entry the inner pipeline of the last element of
      the entry below. */
  ghost predicate StackValid(root: Pipeline, stack: seq<Pointer>)
  {
    stack != [] && stack[0] == [] && (forall i :: 0 <= i < |stack| ==> OnSpine(root, stack[i])) &&
    forall i :: 0 < i < |stack| ==>
                  var below := Deref(root, stack[i - 1]);
                  below != [] && stack[i] == stack[i - 1] + [|below| - 1] &&
                  Deref(root, stack[i]) == below[|below| - 1].inner
  }

  /** The text of the result up to the place that a spine pointer leads to. */
  function PrintOpen(root: Pipeline, p: Pointer): string
    requires OnSpine(root, p)
    decreases |p|
  {
    if p == [] then Print(root)
    else
      var last := root[|root| - 1];
      Print(root[..|root| - 1] + [Element(last.name, [])]) + "(" + PrintOpen(last.inner, p[1..])
  }

  /** Everything but the pipelines along the spine is complete. */
  predicate ValidOpen(root: Pipeline, p: Pointer)
    requires OnSpine(root, p)
    decreases |p|
  {
    if p == [] then ValidElements(root)
    else
      var last := root[|root| - 1];
      ValidElements(root[..|root| - 1]) && CleanName(last.name) && ValidOpen(last.inner, p[1..])
  }

  /** What has been consumed when a name is expected next. */
  function Consumed(root: Pipeline, p: Pointer): string
    requires OnSpine(root, p)
  {
    PrintOpen(root, p) + if Deref(root, p) == [] then "" else ","
  }

  lemma {:induction false} PrintAppend(p: Pipeline, e: Element)
    ensures Print(p + [e]) == Print(p) + (if p == [] then "" else ",") + PrintElement(e)
    ensures PrintRest(p + [e]) == PrintRest(p) + "," + PrintElement(e)
    decreases |p|
  {
    hide PrintElement;
    if p == [] {
      assert (p + [e])[1..] == [];
    } else {
      assert (p + [e])[1..] == p[1..] + [e];
      PrintAppend(p[1..], e);
    }
  }

  /** A name is pushed onto the pipeline on top of the stack. */
  lemma {:induction false} NamePushed(root: Pipeline, p: Pointer, name: string)
    requires OnSpine(root, p) && ValidOpen(root, p) && CleanName(name)
    ensures var root' := PushBack(root, p, Element(name, []));
            OnSpine(root', p) && ValidOpen(root', p) && PrintOpen(root', p) == Consumed(root, p) + name &&
            Deref(root', p) == Deref(root, p) + [Element(name, [])] && |root'| >= |root|
    decreases |p|
  {
    hide Print;
    var e := Element(name, []);
    if p == [] {
      PrintAppend(root, e);
      assert PrintElement(e) == name && ValidElement(e);
    } else {
      var last := root[|root| - 1];
      NamePushed(last.inner, p[1..], name);
      var root' := PushBack(root, p, e);
      assert root'[..|root'| - 1] == root[..|root| - 1];
    }
  }

  /** The stack pointer moves into the last element, whose inner pipeline is empty. */
  lemma {:induction false} Opened(root: Pipeline, p: Pointer)
    requires OnSpine(root, p) && ValidOpen(root, p) && Deref(root, p) != []
    requires var top := Deref(root, p); top[|top| - 1].inner == []
    ensures var top := Deref(root, p);
            var q := p + [|top| - 1];
            OnSpine(root, q) && ValidOpen(root, q) && Deref(root, q) == [] && PrintOpen(root, q) == PrintOpen(root, p) + "("
    decreases |p|
  {
    hide Print;
    if p == [] {
      var last := root[|root| - 1];
      assert root[..|root| - 1] + [Element(last.name, [])] == root;
      assert ValidElement(last);
      assert [|root| - 1][1..] == [];
      PrintNothing();
    } else {
      var top := Deref(root, p);
      assert (p + [|top| - 1])[1..] == p[1..] + [|top| - 1];
      Opened(root[|root| - 1].inner, p[1..]);
    }
  }

  lemma PrintNothing()
    ensures Print([]) == ""
  {
  }

  /** Popping a pointer to a pipeline that is not empty closes a parenthesis. */
  lemma {:induction false} Closed(root: Pipeline, p: Pointer)
    requires OnSpine(root, p) && p != [] && ValidOpen(root, p) && Deref(root, p) != []
    ensures var q := p[..|p| - 1];
            OnSpine(root, q) && ValidOpen(root, q) && Deref(root, q) != [] && PrintOpen(root, q) == PrintOpen(root, p) + ")"
    decreases |p|
  {
    hide Print;
    var last := root[|root| - 1];
    if |p| == 1 {
      assert p[1..] == [] && p[..|p| - 1] == [] && ValidElement(last);
      LastClosed(root);
    } else {
      assert p[..|p| - 1][1..] == p[1..][..|p[1..]| - 1];
      Closed(last.inner, p[1..]);
    }
  }

  lemma LastClosed(root: Pipeline)
    requires root != [] && root[|root| - 1].inner != []
    ensures var last := root[|root| - 1];
            Print(root) == Print(root[..|root| - 1] + [Element(last.name, [])]) + "(" + Print(last.inner) + ")"
  {
    hide Print;
    var front, last := root[..|root| - 1], root[|root| - 1];
    var bare := Element(last.name, []);
    assert front + [last] == root;
    PrintAppend(front, last);
    PrintAppend(front, bare);
    var before, inner := Print(front) + (if front == [] then "" else ","), Print(last.inner);
    assert PrintElement(bare) == last.name && PrintElement(last) == last.name + ("(" + inner + ")");
    assert before + (last.name + ("(" + inner + ")")) == before + last.name + "(" + inner + ")";
  }

  // ----- the stack -----

  lemma {:induction false} SpinePrefix(root: Pipeline, p: Pointer, n: nat)
    requires OnSpine(root, p) && n <= |p|
    ensures OnSpine(root, p[..n])
    ensures n < |p| ==> var below := Deref(root, p[..n]);
                        below != [] && p[n] == |below| - 1 && OnSpine(root, p[..n + 1]) &&
                        Deref(root, p[..n + 1]) == below[|below| - 1].inner
    decreases |p|
  {
    if p != [] && n != 0 {
      assert p[..n][1..] == p[1..][..n - 1];
      if n < |p| { assert p[..n + 1][1..] == p[1..][..n]; }
      SpinePrefix(root[|root| - 1].inner, p[1..], n - 1);
    } else if p != [] {
      assert p[..1][1..] == [];
    }
  }

  /** A stack of all prefixes of a spine pointer. */
  predicate IsStackOf(stack: seq<Pointer>, top: Pointer)
  {
    |stack| == |top| + 1 && forall i :: 0 <= i < |stack| ==> stack[i] == top[..i]
  }

  lemma StackOfSpine(root: Pipeline, stack: seq<Pointer>, top: Pointer)
    requires IsStackOf(stack, top) && OnSpine(root, top)
    ensures StackValid(root, stack)
  {
    forall i | 0 <= i < |stack|
      ensures OnSpine(root, stack[i])
    {
      SpinePrefix(root, top, i);
    }
    forall i | 0 < i < |stack|
      ensures var below := Deref(root, stack[i - 1]);
                        below != [] && stack[i] == stack[i - 1] + [|below| - 1] &&
                        Deref(root, stack[i]) == below[|below| - 1].inner
    {
      SpinePrefix(root, top, i - 1);
      assert top[..i] == top[..i - 1] + [top[i - 1]];
    }
  }

  // ----- the parser -----

  function FindFirstOf(text: string): (r: Option<nat>)
    ensures r.None? ==> CleanName(text)
    ensures r.Some? ==> r.value < |text| && IsSeparator(text[r.value]) && CleanName(text[..r.value])
  {
    if text == "" then None
    else if IsSeparator(text[0]) then Some(0)
    else
      match FindFirstOf(text[1..])
      case None => None
      case Some(n) => Some(n + 1)
  }

  lemma {:induction false} OpenNesting(root: Pipeline, p: Pointer)
    requires OnSpine(root, p) && ValidOpen(root, p)
    ensures Nesting(PrintOpen(root, p)) == |p|
    decreases |p|
  {
    hide Print;
    if p == [] {
      PipelineAcceptable(root);
    } else {
      var last := root[|root| - 1];
      var closed := root[..|root| - 1] + [Element(last.name, [])];
      assert ValidElement(Element(last.name, []));
      PipelineAcceptable(closed);
      OpenNesting(last.inner, p[1..]);
      NestingOfOne('(');
      NestingAdds(Print(closed), "(");
      NestingAdds(Print(closed) + "(", PrintOpen(last.inner, p[1..]));
    }
  }

  /** Three reasons to reject a text. */
  lemma UnbalancedClose(consumed: string, text: string)
    requires Nesting(consumed) == 0
    ensures !Acceptable(consumed + ")" + text)
  {
    var input := consumed + ")" + text;
    NestingOfOne(')');
    NestingAdds(consumed, ")");
    assert input[..|consumed| + 1] == consumed + ")";
  }

  lemma BadSuccessor(consumed: string, text: string)
    requires consumed != "" && consumed[|consumed| - 1] == ')' && text != "" && text[0] != ',' && text[0] != ')'
    ensures !Acceptable(consumed + text)
  {
    var input := consumed + text;
    assert input[|consumed| - 1] == ')' && input[|consumed|] == text[0];
  }

  lemma UnbalancedEnd(text: string)
    requires Nesting(text) > 0
    ensures !Acceptable(text)
  {
  }

  lemma NothingParsed(stack: seq<Pointer>, top: Pointer)
    requires stack == [[]] && top == []
    ensures OnSpine([], top) && ValidOpen([], top) && StackValid([], stack) && IsStackOf(stack, top) && Consumed([], top) == ""
  {
  }

  lemma CompleteText(root: Pipeline, p: Pointer)
    requires p == [] && OnSpine(root, p) && ValidOpen(root, p)
    ensures Deref(root, p) == root && Print(root) == PrintOpen(root, p) && ValidElements(root) && Acceptable(Print(root))
  {
    PipelineAcceptable(root);
  }

  predicate StartsWith(text: string, c: char) { text != "" && text[0] == c }

  /** The state of the parser: `top` is the pointer on top of the stack. */
  ghost predicate ParserState(root: Pipeline, stack: seq<Pointer>, top: Pointer)
  {
    IsStackOf(stack, top) && OnSpine(root, top) && ValidOpen(root, top) && StackValid(root, stack)
  }

  lemma PopStack(root: Pipeline, stack: seq<Pointer>, top: Pointer)
    requires ParserState(root, stack, top) && |stack| > 1 && Deref(root, top) != []
    ensures var next := top[..|top| - 1];
            ParserState(root, stack[..|stack| - 1], next) && Deref(root, next) != [] &&
            PrintOpen(root, next) == PrintOpen(root, top) + ")"
  {
    hide ValidOpen;
    hide PrintOpen;
    hide OnSpine;
    Closed(root, top);
    StackOfSpine(root, stack[..|stack| - 1], top[..|top| - 1]);
  }

  lemma PushStack(root: Pipeline, stack: seq<Pointer>, top: Pointer)
    requires ParserState(root, stack, top) && Deref(root, top) != []
    requires var pipeline := Deref(root, top); pipeline[|pipeline| - 1].inner == []
    ensures var next := top + [|Deref(root, top)| - 1];
            ParserState(root, stack + [next], next) && Consumed(root, next) == PrintOpen(root, top) + "("
  {
    hide ValidOpen;
    hide PrintOpen;
    hide OnSpine;
    var next := top + [|Deref(root, top)| - 1];
    Opened(root, top);
    assert (stack + [next])[..|stack|] == stack;
    StackOfSpine(root, stack + [next], next);
  }

  lemma TopOfStack(stack: seq<Pointer>, top: Pointer)
    requires IsStackOf(stack, top)
    ensures |stack| == |top| + 1 && stack[|stack| - 1] == top
  {
    assert top[..|top|] == top;
  }

  /** The innermost loop: closing parentheses are consumed greedily.  The first one has been consumed already. */
  method ConsumeCloses(root: Pipeline, stack: seq<Pointer>, text: string, ghost top: Pointer)
    returns (ok: bool, stack': seq<Pointer>, text': string, ghost top': Pointer)
    requires ParserState(root, stack, top) && Deref(root, top) != []
    ensures !ok ==> !Acceptable(PrintOpen(root, top) + ")" + text)
    ensures ok ==>
              ParserState(root, stack', top') && Deref(root, top') != [] && |text'| <= |text| && !StartsWith(text', ')') &&
              PrintOpen(root, top') + text' == PrintOpen(root, top) + ")" + text &&
              PrintOpen(root, top') != "" && PrintOpen(root, top')[|PrintOpen(root, top')| - 1] == ')'
  {
    hide Acceptable;
    hide PrintOpen;
    hide ValidOpen;
    hide StackValid;
    hide OnSpine;
    ghost var whole := PrintOpen(root, top) + ")" + text;
    stack', text', top' := stack, text, top;
    var more := true;
    while more
      invariant ParserState(root, stack', top') && Deref(root, top') != [] && |text'| <= |text|
      invariant more ==> whole == PrintOpen(root, top') + ")" + text'
      invariant !more ==>
                  whole == PrintOpen(root, top') + text' && !StartsWith(text', ')') &&
                  PrintOpen(root, top') != "" && PrintOpen(root, top')[|PrintOpen(root, top')| - 1] == ')'
      decreases |stack'|, more
    {
      if |stack'| == 1 {
        OpenNesting(root, top');
        UnbalancedClose(PrintOpen(root, top'), text');
        return false, stack', text', top';
      }
      PopStack(root, stack', top');
      stack', top' := stack'[..|stack'| - 1], top'[..|top'| - 1];
      if StartsWith(text', ')') {
        assert text' == ")" + text'[1..];
        text' := text'[1..];
      } else {
        more := false;
      }
    }
    ok := true;
  }

  /** The first steps of the parser's loop: find the next separator and push the name before it. */
  method ReadName(root: Pipeline, stack: seq<Pointer>, text: string, ghost top: Pointer, ghost input: string)
    returns (root': Pipeline, pos: Option<nat>)
    requires ParserState(root, stack, top) && input == Consumed(root, top) + text
    ensures ParserState(root', stack, top) && root' != []
    ensures Deref(root', top) != [] && Deref(root', top)[|Deref(root', top)| - 1].inner == []
    ensures pos.None? ==> input == PrintOpen(root', top)
    ensures pos.Some? ==> pos.value < |text| && IsSeparator(text[pos.value]) &&
                          input == PrintOpen(root', top) + [text[pos.value]] + text[pos.value + 1..]
  {
    hide PrintOpen;
    hide ValidOpen;
    hide StackValid;
    hide OnSpine;
    hide PushBack;
    hide IsStackOf;
    pos := FindFirstOf(text);
    var name := if pos.Some? then text[..pos.value] else text;
    TopOfStack(stack, top);
    NamePushed(root, top, name);
    root' := PushBack(root, stack[|stack| - 1], Element(name, []));
    StackOfSpine(root', stack, top);
  }

  /** parsePipelineText.  It accepts exactly the acceptable texts, and what it returns prints as the text. */
  method ParsePipelineText(input: string) returns (r: Option<Pipeline>)
    ensures r.Some? <==> Acceptable(input)
    ensures r.Some? ==> Valid(r.value) && Print(r.value) == input
  {
    hide Print;
    hide Acceptable;
    hide PrintOpen;
    hide ValidOpen;
    hide StackValid;
    hide OnSpine;
    hide IsStackOf;
    hide Deref;
    var text := input;
    var result: Pipeline := [];
    var stack: seq<Pointer> := [[]];
    ghost var top: Pointer := [];
    NothingParsed(stack, top);
    while true
      invariant ParserState(result, stack, top)
      invariant input == Consumed(result, top) + text
      decreases |text|
    {
      var pos;
      result, pos := ReadName(result, stack, text, top, input);
      TopOfStack(stack, top);
      if pos.None? {
        break;
      }
      var sep := text[pos.value];
      text := text[pos.value + 1..];
      if sep == ',' {
        continue;
      }
      if sep == '(' {
        PushStack(result, stack, top);
        var pipeline := Deref(result, stack[|stack| - 1]);
        stack := stack + [stack[|stack| - 1] + [|pipeline| - 1]];
        top := top + [|Deref(result, top)| - 1];
        continue;
      }
      var ok;
      ok, stack, text, top := ConsumeCloses(result, stack, text, top);
      if !ok {
        return None;
      }
      if text == "" {
        assert input == PrintOpen(result, top);
        break;
      }
      if !StartsWith(text, ',') {
        BadSuccessor(PrintOpen(result, top), text);
        return None;
      }
      text := text[1..];
    }
    assert input == PrintOpen(result, top);
    OpenNesting(result, top);
    TopOfStack(stack, top);
    if |stack| > 1 {
      UnbalancedEnd(input);
      return None;
    }
    CompleteText(result, top);
    r := Some(result);
  }

  /** The parser inverts the printer: a valid pipeline is the only one that its text can be parsed to. */
  lemma ParserInvertsPrinter(p: Pipeline, r: Option<Pipeline>)
    requires Valid(p)
    requires r.Some? <==> Acceptable(Print(p))
    requires r.Some? ==> Valid(r.value) && Print(r.value) == Print(p)
    ensures r == Some(p)
  {
    hide Acceptable;
    hide Print;
    PipelineAcceptable(p);
    assert Print(p) + "" == Print(r.value) + "";
    PipelineUnique(p, r.value, "", "");
  }
}
