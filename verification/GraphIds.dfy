/**
 Node and edge identifiers of the known-answer graph
 (crates/benchmark/src/graph.rs, crates/graph/src/model.rs).  A node is a
 document, a chunk of a document, or an entity; an edge links a document to one
 of its chunks, or a chunk to the entity of its document.  Everything the
 builder and the oracle conclude from identifiers rests on the two injectivity
 lemmas here.
 */
module GraphIds {
  import opened Decimal
  import opened Wrappers

  const USIZE_BOUND: nat := 0x1_0000_0000_0000_0000

  datatype Node = Document(document: nat) | Chunk(document: nat, chunk: nat) | Entity(entity: nat)

  datatype Link = Contains(document: nat, chunk: nat) | Mentions(document: nat, chunk: nat)

  /** The length prefix counts the bytes of the workspace name, which is taken here as its byte string. */
  function Scoped(workspace: string, local: string): string {
    "workspace:" + (Digits(|workspace|) + ":" + (workspace + (":" + local)))
  }

  function Local(node: Node): string {
    match node
    case Document(d) => "document:" + Padded(d, 10)
    case Chunk(d, c) => "chunk:" + Pair(d, c)
    case Entity(e) => "entity:" + Padded(e, 10)
  }

  function Pair(document: nat, chunk: nat): string {
    Padded(document, 10) + ":" + Padded(chunk, 3)
  }

  function NodeId(workspace: string, node: Node): string {
    Scoped(workspace, Local(node))
  }

  function LinkLabel(link: Link): string {
    if link.Contains? then ":contains:" else ":mentions:"
  }

  function EdgeId(workspace: string, link: Link): string {
    workspace + (LinkLabel(link) + Pair(link.document, link.chunk))
  }

  /** The identifiers of a graph, by node and by link. */
  datatype Names = Names(node: Node -> string, link: Link -> string)

  function NamesOf(workspace: string): Names {
    Names(n => NodeId(workspace, n), l => EdgeId(workspace, l))
  }

  ghost predicate Distinct(names: Names) {
    && (forall m, n :: names.node(m) == names.node(n) ==> m == n)
    && (forall k, l :: names.link(k) == names.link(l) ==> k == l)
  }

  /** Digits never contain the colon, so the first colon is the separator. */
  lemma ColonSplits(a: string, s: string, b: string, t: string)
    requires AllDigits(a) && AllDigits(b)
    requires a + ":" + s == b + ":" + t
    ensures a == b && s == t
  {
    var whole := a + ":" + s;
    assert whole[|a|] == ':' && whole[|b|] == ':';
    assert forall i :: 0 <= i < |a| ==> IsDigit(whole[i]);
    assert forall i :: 0 <= i < |b| ==> IsDigit(whole[i]);
    assert |a| == |b|;
    assert a == whole[..|a|] && b == whole[..|b|];
    assert s == whole[|a| + 1..] && t == whole[|b| + 1..];
  }

  lemma PairInjective(d: nat, c: nat, d': nat, c': nat)
    requires Pair(d, c) == Pair(d', c')
    ensures d == d' && c == c'
  {
    ColonSplits(Padded(d, 10), Padded(c, 3), Padded(d', 10), Padded(c', 3));
    PaddedInjective(d, d', 10);
    PaddedInjective(c, c', 3);
  }

  lemma LocalInjective(m: Node, n: Node)
    requires Local(m) == Local(n)
    ensures m == n
  {
    assert Local(m)[0] == Local(n)[0];
    match m {
      case Document(d) =>
        PrefixCancels("document:", Padded(d, 10), Padded(n.document, 10));
        PaddedInjective(d, n.document, 10);
      case Chunk(d, c) =>
        PrefixCancels("chunk:", Pair(d, c), Pair(n.document, n.chunk));
        PairInjective(d, c, n.document, n.chunk);
      case Entity(e) =>
        PrefixCancels("entity:", Padded(e, 10), Padded(n.entity, 10));
        PaddedInjective(e, n.entity, 10);
    }
  }

  /** The length prefix removes the ambiguity of the colon: no two workspaces share a scoped identifier. */
  lemma ScopedInjective(v: string, s: string, w: string, t: string)
    requires Scoped(v, s) == Scoped(w, t)
    ensures v == w && s == t
  {
    var restV, restW := v + (":" + s), w + (":" + t);
    PrefixCancels("workspace:", Digits(|v|) + ":" + restV, Digits(|w|) + ":" + restW);
    ColonSplits(Digits(|v|), restV, Digits(|w|), restW);
    ValueOfDigits(|v|);
    ValueOfDigits(|w|);
    assert v == restV[..|v|] && w == restW[..|w|];
    PrefixCancels(v, ":" + s, ":" + t);
    PrefixCancels(":", s, t);
  }

  /** No two nodes share an identifier, whatever their kinds and workspaces. */
  lemma NodeIdInjective(v: string, m: Node, w: string, n: Node)
    requires NodeId(v, m) == NodeId(w, n)
    ensures v == w && m == n
  {
    ScopedInjective(v, Local(m), w, Local(n));
    LocalInjective(m, n);
  }

  lemma LabelShows(link: Link, tail: string)
    ensures (LinkLabel(link) + tail)[1] == if link.Contains? then 'c' else 'm'
  {
  }

  lemma LinkInjective(k: Link, l: Link)
    requires LinkLabel(k) + Pair(k.document, k.chunk) == LinkLabel(l) + Pair(l.document, l.chunk)
    ensures k == l
  {
    LabelShows(k, Pair(k.document, k.chunk));
    LabelShows(l, Pair(l.document, l.chunk));
    PrefixCancels(LinkLabel(k), Pair(k.document, k.chunk), Pair(l.document, l.chunk));
    PairInjective(k.document, k.chunk, l.document, l.chunk);
  }

  /** Within a workspace, no two edges share an identifier. */
  lemma EdgeIdInjective(workspace: string, k: Link, l: Link)
    requires EdgeId(workspace, k) == EdgeId(workspace, l)
    ensures k == l
  {
    PrefixCancels(workspace, LinkLabel(k) + Pair(k.document, k.chunk), LinkLabel(l) + Pair(l.document, l.chunk));
    LinkInjective(k, l);
  }

  lemma NamesDistinct(workspace: string)
    ensures Distinct(NamesOf(workspace))
  {
    var names := NamesOf(workspace);
    forall m, n | names.node(m) == names.node(n) ensures m == n {
      NodeIdInjective(workspace, m, workspace, n);
    }
    forall k, l | names.link(k) == names.link(l) ensures k == l {
      EdgeIdInjective(workspace, k, l);
    }
  }

  /** The first colon at or after `i`, or the end. */
  function ColonFrom(s: string, i: nat): (k: nat)
    requires i <= |s|
    ensures i <= k <= |s| && (k < |s| ==> s[k] == ':') && forall j :: i <= j < k ==> s[j] != ':'
    decreases |s| - i
  {
    if i == |s| || s[i] == ':' then i else ColonFrom(s, i + 1)
  }

  /** The parts after the length: so many characters, a colon, and the local part. */
  function TailParts(length: nat, tail: string): Option<(string, string)> {
    if |tail| <= length || tail[length] != ':' then None else Some((tail[..length], tail[length + 1..]))
  }

  function LengthParts(rest: string): Option<(string, string)> {
    var colon := ColonFrom(rest, 0);
    if colon == |rest| then None
    else
      match ParseUnsigned(rest[..colon], USIZE_BOUND)
      case None => None
      case Some(length) => TailParts(length, rest[colon + 1..])
  }

  /** Reads a scoped identifier back into its workspace and local parts. */
  function ScopedParts(id: string): Option<(string, string)> {
    if "workspace:" <= id then LengthParts(id[|"workspace:"|..]) else None
  }

  function LocalId(id: string): string {
    match ScopedParts(id)
    case Some((_, local)) => local
    case None => id
  }

  predicate IsChunkId(id: string) {
    "chunk:" <= LocalId(id)
  }

  lemma DigitsParse(n: nat)
    requires n < USIZE_BOUND
    ensures ParseUnsigned(Digits(n), USIZE_BOUND) == Some(n)
  {
    ParsePadded(n, 0, USIZE_BOUND);
  }

  lemma PartsOfLength(digits: string, tail: string)
    requires AllDigits(digits)
    ensures ColonFrom(digits + ":" + tail, 0) == |digits|
    ensures LengthParts(digits + ":" + tail)
         == match ParseUnsigned(digits, USIZE_BOUND)
            case None => None
            case Some(length) => TailParts(length, tail)
  {
    var rest := digits + ":" + tail;
    assert rest[|digits|] == ':' && forall j :: 0 <= j < |digits| ==> IsDigit(rest[j]);
    assert rest[..|digits|] == digits && rest[|digits| + 1..] == tail;
  }

  /** Reading back a scoped identifier gives the workspace and the local part, colons and all. */
  lemma PartsOfScoped(workspace: string, local: string)
    requires |workspace| < USIZE_BOUND
    ensures ScopedParts(Scoped(workspace, local)) == Some((workspace, local))
  {
    var tail := workspace + (":" + local);
    var rest := Digits(|workspace|) + ":" + tail;
    assert ("workspace:" + rest)[|"workspace:"|..] == rest;
    PartsOfLength(Digits(|workspace|), tail);
    DigitsParse(|workspace|);
    assert tail[..|workspace|] == workspace && tail[|workspace| + 1..] == local;
  }

  ghost predicate Labelled(local: string) {
    exists t :: local == "chunk:" + t
  }

  lemma LabelledExact(local: string)
    ensures Labelled(local) <==> "chunk:" <= local
  {
    if "chunk:" <= local {
      assert local == "chunk:" + local[6..];
    }
  }

  /** An identifier, scoped or not, is that of a chunk exactly when its local part is the label and any text. */
  lemma ChunkIdLabelled(workspace: string, local: string)
    requires |workspace| < USIZE_BOUND
    ensures IsChunkId(Scoped(workspace, local)) <==> Labelled(local)
    ensures !("workspace:" <= local) ==> (IsChunkId(local) <==> Labelled(local))
  {
    LabelledExact(local);
    PartsOfScoped(workspace, local);
  }

  /** Of the graph's nodes, exactly the chunks have a chunk identifier. */
  lemma ChunkIdExact(workspace: string, node: Node)
    requires |workspace| < USIZE_BOUND
    ensures IsChunkId(NodeId(workspace, node)) <==> node.Chunk?
  {
    PartsOfScoped(workspace, Local(node));
    assert Local(node)[0] == "chunk:"[0] <==> node.Chunk?;
  }
}
