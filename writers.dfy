/**
 * The transpiler as the update and query builders use it: a writer from a
 * node and an allocator to a text and a new allocator, and what the
 * builders rely on from it.
 */
module Writers {
  import opened Common
  import opened Nodes
  import opened Parser
  import opened Projections
  import opened QueryVars
  import opened Transpiler

  /**
   * How a builder writes a member path, a condition or a filter: a node and
   * the allocator before, to the text and the allocator after. The builders
   * use the transpiler (Transpiled); their operations are stated for any
   * writer.
   */
  type Writer = (Node, Vars) -> (Result<string>, Vars)

  /** A registry, and the record type's projection in it as GetReadProjection or GetWriteProjection returns it. */
  datatype RenderTarget = RenderTarget(reg: Registry, proj: Option<Projection>)

  /** ToExpression(node, queryVars, projection) */
  function Transpiled(t: RenderTarget): Writer
  {
    (n, st) => RenderRoot(Some(n), t.reg, t.proj, st)
  }

  /**
   * What the builders rely on from their writer: it keeps the allocator's
   * invariant and every alias handed out, it succeeds exactly on the
   * writable trees and then gives a non-empty text, a member path only
   * changes the name tables, and a braced tree comes back in parentheses.
   */
  ghost predicate Sound(write: Writer, t: RenderTarget)
  {
    KeepsAliases(write) && WritesRenderable(write, t) && MembersOnlyName(write) && BracesParenthesized(write)
  }

  ghost predicate KeepsAliases(write: Writer)
  {
    forall n, st :: Inv(st) ==> Inv(write(n, st).1) && Extends(st, write(n, st).1)
  }

  ghost predicate WritesRenderable(write: Writer, t: RenderTarget)
  {
    forall n, st :: Inv(st) ==>
      (write(n, st).0.Success? <==> Renderable(n, t.reg, t.proj))
      && (write(n, st).0.Success? ==> |write(n, st).0.value| > 0)
  }

  ghost predicate MembersOnlyName(write: Writer)
  {
    forall n: Node, st :: Inv(st) && n.RecordMemberAccessor? ==> NamesOnly(st, write(n, st).1)
  }

  ghost predicate BracesParenthesized(write: Writer)
  {
    forall n, st :: write(InBraces(n), st).0.Success? ==> Parenthesized(write(InBraces(n), st).0.value)
  }

  predicate Parenthesized(s: string)
  {
    |s| >= 2 && s[0] == '(' && s[|s| - 1] == ')'
  }

  ghost predicate AllParenthesized(texts: seq<string>)
  {
    forall k :: 0 <= k < |texts| ==> Parenthesized(texts[k])
  }

  lemma AllParenthesizedSnoc(texts: seq<string>, text: string)
    requires AllParenthesized(texts) && Parenthesized(text)
    ensures AllParenthesized(texts + [text])
  {
  }

  /** The transpiler is such a writer. */
  lemma TranspiledSound(t: RenderTarget)
    ensures Sound(Transpiled(t), t)
  {
    var write := Transpiled(t);
    forall n, st | Inv(st) ensures Inv(write(n, st).1) && Extends(st, write(n, st).1) {
      RenderExtends(n, t.reg, t.proj, st);
    }
    forall n, st | Inv(st)
      ensures (write(n, st).0.Success? <==> Renderable(n, t.reg, t.proj))
      ensures write(n, st).0.Success? ==> |write(n, st).0.value| > 0
    {
      RenderSucceeds(n, t.reg, t.proj, st);
    }
    forall n: Node, st: Vars | Inv(st) && n.RecordMemberAccessor? ensures NamesOnly(st, write(n, st).1) {
      RenderDispatch(n, t.reg, t.proj, st);
      RenderAccessorKeeps(n, t.reg, t.proj, st);
    }
    forall n, st | write(InBraces(n), st).0.Success?
      ensures Parenthesized(write(InBraces(n), st).0.value)
    {
      RenderDispatch(InBraces(n), t.reg, t.proj, st);
    }
  }

  /** A condition or filter brace-wrapped before rendering: only when there are several and it is not braced already. */
  function WrapOnce(c: Node, several: bool): Node
  {
    if !c.InBraces? && several then InBraces(c) else c
  }

  /**
   * Where and When: a null predicate is refused with ArgumentNull naming the
   * parameter `param`; otherwise the parsed predicate `filter` is added last, and a
   * parse failure leaves the list as it was.
   */
  function AddParsed(nodes: seq<Node>, host: Host, filter: Option<Expr>, param: string): (r: (Result<()>, seq<Node>))
    ensures filter.None? ==> r == (Failure(ArgumentNull(param)), nodes)
    ensures r.0.Failure? ==> r.1 == nodes
    ensures r.0.Success? <==> filter.Some? && Tokenize(host, filter.value).Success?
    ensures r.0.Success? ==> r.1 == nodes + [Tokenize(host, filter.value).value]
  {
    if filter.None? then (Failure(ArgumentNull(param)), nodes)
    else
      var node := Tokenize(host, filter.value);
      if node.Failure? then (Failure(node.error), nodes)
      else (Success(()), nodes + [node.value])
  }
}
