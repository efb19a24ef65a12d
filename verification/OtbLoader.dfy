/**
 The OTB tree file reader (src/io/fileloader.cpp, src/io/fileloader.h).

 A file is an identifier of four bytes followed by one node.  A node is START, a type byte, property
 bytes, child nodes and END; ESCAPE hides the byte after it.  `Loader.ParseTree` walks the bytes once
 with an explicit stack of open nodes, and `Loader.GetProps` strips the escapes from one node's property
 range.  The grammar below (`ParseNode`, `ParseChildren`, `Document`) is recursive descent and knows no
 stack; `Encode` is the writer that the format implies.
 */
module OtbLoader {
  import opened Basics
  import opened Wrappers

  const ESCAPE: byte := 0xFD
  const START: byte := 0xFE
  const END: byte := 0xFF
  const IDENTIFIER_SIZE := 4
  const MINIMAL_SIZE := 7

  predicate IsMarker(b: byte) {
    b == START || b == END
  }

  // ----- The grammar ---------------------------------------------------------------------------

  /** A parsed node: its type byte, the range of its raw property bytes, and its children. */
  datatype Tree = Tree(kind: byte, propsBegin: nat, propsEnd: nat, children: seq<Tree>)

  /** The position of the first START or END at or after `i` that no ESCAPE hides. */
  function NextMarker(s: seq<byte>, i: nat): (r: Option<nat>)
    requires i <= |s|
    ensures r.Some? ==> i <= r.value < |s| && IsMarker(s[r.value])
    decreases |s| - i
  {
    if i == |s| then None
    else if IsMarker(s[i]) then Some(i)
    else if s[i] == ESCAPE then (if i + 1 == |s| then None else NextMarker(s, i + 2))
    else NextMarker(s, i + 1)
  }

  /** From `i` to the end of the file there is no bare marker and no ESCAPE without a byte to hide. */
  predicate Quiet(s: seq<byte>, i: nat)
    requires i <= |s|
    decreases |s| - i
  {
    if i == |s| then true
    else if IsMarker(s[i]) then false
    else if s[i] == ESCAPE then i + 1 < |s| && Quiet(s, i + 2)
    else Quiet(s, i + 1)
  }

  /** The node whose type byte is at `i`, and the position after its END. */
  function ParseNode(s: seq<byte>, i: nat): (r: Option<(Tree, nat)>)
    requires i < |s|
    ensures r.Some? ==> i + 1 < r.value.1 <= |s|
    decreases |s| - i
  {
    match ParseChildren(s, i + 1)
    case None => None
    case Some((children, next)) =>
      Some((Tree(s[i], i + 1, NextMarker(s, i + 1).value, children), next))
  }

  /** The children that start at or after `i`, up to the END that closes their parent. */
  function ParseChildren(s: seq<byte>, i: nat): (r: Option<(seq<Tree>, nat)>)
    requires i <= |s|
    ensures r.Some? ==> NextMarker(s, i).Some? && i < r.value.1 <= |s|
    decreases |s| - i
  {
    match NextMarker(s, i)
    case None => None
    case Some(q) =>
      if s[q] == END then Some(([], q + 1))
      else if q + 1 == |s| then None
      else
        match ParseNode(s, q + 1)
        case None => None
        case Some((child, next)) =>
          match ParseChildren(s, next)
          case None => None
          case Some((rest, end)) => Some(([child] + rest, end))
  }

  /** The tree of a whole file. */
  function Document(s: seq<byte>): Option<Tree>
    requires |s| > MINIMAL_SIZE
  {
    if s[IDENTIFIER_SIZE] != START then None
    else
      match ParseNode(s, IDENTIFIER_SIZE + 1)
      case None => None
      case Some((tree, next)) => if Quiet(s, next) then Some(tree) else None
  }

  // ----- What is left to do with a stack of open nodes -----------------------------------------

  /** An open node: what is known of it and its finished children. */
  datatype Frame = Frame(kind: byte, propsBegin: nat, propsEnd: nat, done: seq<Tree>)

  /** The top frame closed by what the grammar finds from `i` on. */
  function Close(s: seq<byte>, i: nat, top: Frame, rest: seq<Tree>): Tree
    requires i <= |s| && NextMarker(s, i).Some?
  {
    Tree(top.kind, top.propsBegin,
         if top.done == [] then NextMarker(s, i).value else top.propsEnd,
         top.done + rest)
  }

  function Attach(frames: seq<Frame>, t: Tree): seq<Frame>
    requires frames != []
  {
    var top := frames[|frames| - 1];
    frames[..|frames| - 1] + [top.(done := top.done + [t])]
  }

  /** The outcome of the whole parse when `frames` are open and the input is read up to `i`. */
  function Finish(s: seq<byte>, i: nat, frames: seq<Frame>): Option<Tree>
    requires i <= |s| && frames != []
    decreases |frames|
  {
    match ParseChildren(s, i)
    case None => None
    case Some((rest, next)) =>
      var t := Close(s, i, frames[|frames| - 1], rest);
      if |frames| == 1 then (if Quiet(s, next) then Some(t) else None)
      else Finish(s, next, Attach(frames[..|frames| - 1], t))
  }

  function MarkPropsEnd(frames: seq<Frame>, i: nat): seq<Frame>
    requires frames != []
  {
    var top := frames[|frames| - 1];
    frames[..|frames| - 1] + [if top.done == [] then top.(propsEnd := i) else top]
  }

  /** Where reading goes on after a byte that is no marker. */
  function After(s: seq<byte>, i: nat): nat
    requires i < |s|
  {
    if s[i] == ESCAPE then i + 2 else i + 1
  }

  lemma {:induction false} FinishSkips(s: seq<byte>, i: nat, frames: seq<Frame>)
    requires i < |s| && !IsMarker(s[i]) && frames != []
    ensures After(s, i) <= |s| ==> Finish(s, i, frames) == Finish(s, After(s, i), frames)
    ensures After(s, i) > |s| ==> Finish(s, i, frames) == None
  {
    if After(s, i) <= |s| {
      assert NextMarker(s, i) == NextMarker(s, After(s, i));
      assert ParseChildren(s, i) == ParseChildren(s, After(s, i));
    }
  }

  lemma {:induction false} FinishOpensChild(s: seq<byte>, i: nat, frames: seq<Frame>)
    requires i + 1 < |s| && frames != [] && s[i] == START
    ensures Finish(s, i, frames)
         == Finish(s, i + 2, MarkPropsEnd(frames, i) + [Frame(s[i + 1], i + 2, 0, [])])
  {
    var marked := MarkPropsEnd(frames, i);
    var child := Frame(s[i + 1], i + 2, 0, []);
    var extended := marked + [child];
    assert extended[..|extended| - 1] == marked;
    match ParseNode(s, i + 1) {
      case None =>
      case Some((t, next)) =>
        assert t == Close(s, i + 2, child, t.children);
        var k := |frames| - 1;
        var attached := Attach(marked, t);
        assert attached[..k] == frames[..k];
        match ParseChildren(s, next) {
          case None =>
          case Some((rest, end)) =>
            assert frames[k].done + ([t] + rest) == (frames[k].done + [t]) + rest;
            assert Close(s, next, attached[k], rest) == Close(s, i, frames[k], [t] + rest);
        }
    }
  }

  /** The tree of a frame whose END is at `i`. */
  function ClosedAt(top: Frame, i: nat): Tree {
    Tree(top.kind, top.propsBegin, if top.done == [] then i else top.propsEnd, top.done)
  }

  lemma {:induction false} FinishClosesTop(s: seq<byte>, i: nat, frames: seq<Frame>)
    requires i < |s| && frames != [] && s[i] == END
    ensures Finish(s, i, frames)
         == if |frames| == 1
            then (if Quiet(s, i + 1) then Some(ClosedAt(frames[0], i)) else None)
            else Finish(s, i + 1, Attach(frames[..|frames| - 1], ClosedAt(frames[|frames| - 1], i)))
  {
    var top := frames[|frames| - 1];
    assert top.done + [] == top.done;
    assert ParseChildren(s, i) == Some(([], i + 1));
  }

  /** One turn of the loop on the frames: where reading goes on and what is open then. */
  datatype Turn = Throw | Continue(next: nat, frames: seq<Frame>)

  function Step(s: seq<byte>, i: nat, frames: seq<Frame>): Turn
    requires i < |s|
  {
    if s[i] == START then
      if frames == [] || i + 1 == |s| then Throw
      else Continue(i + 2, MarkPropsEnd(frames, i) + [Frame(s[i + 1], i + 2, 0, [])])
    else if s[i] == END then
      if frames == [] then Throw
      else if |frames| == 1 then Continue(i + 1, [])
      else Continue(i + 1, Attach(frames[..|frames| - 1], ClosedAt(frames[|frames| - 1], i)))
    else if After(s, i) > |s| then Throw
    else Continue(After(s, i), frames)
  }

  /** The outcome after a turn; `last` is the tree of the outermost node if the turn closed it. */
  function Outcome(s: seq<byte>, turn: Turn, last: Tree): Option<Tree>
    requires turn.Continue? ==> turn.next <= |s|
  {
    if turn.Throw? then None
    else if turn.frames != [] then Finish(s, turn.next, turn.frames)
    else if Quiet(s, turn.next) then Some(last)
    else None
  }

  /** A turn does not change the outcome. */
  lemma {:induction false} StepKeepsOutcome(s: seq<byte>, i: nat, frames: seq<Frame>)
    requires i < |s| && frames != []
    ensures Step(s, i, frames).Throw? ==> Finish(s, i, frames) == None
    ensures Step(s, i, frames).Continue? ==>
              && i < Step(s, i, frames).next <= |s|
              && Finish(s, i, frames) == Outcome(s, Step(s, i, frames), ClosedAt(frames[0], i))
  {
    if s[i] == START {
      if i + 1 < |s| {
        FinishOpensChild(s, i, frames);
      }
    } else if s[i] == END {
      FinishClosesTop(s, i, frames);
    } else {
      FinishSkips(s, i, frames);
    }
  }

  // ----- Well-bracketed input ------------------------------------------------------------------

  /** Reading from `i` with `depth` nodes open, the brackets match: no END is in excess, nothing opens
      after the outermost node is closed, and all is closed at the end of the file. */
  predicate Bracketed(s: seq<byte>, i: nat, depth: nat)
    requires i <= |s|
    decreases |s| - i
  {
    if i == |s| then depth == 0
    else if s[i] == ESCAPE then i + 1 < |s| && Bracketed(s, i + 2, depth)
    else if s[i] == START then depth > 0 && i + 1 < |s| && Bracketed(s, i + 2, depth + 1)
    else if s[i] == END then depth > 0 && Bracketed(s, i + 1, depth - 1)
    else Bracketed(s, i + 1, depth)
  }

  lemma {:induction false} QuietIsBracketed(s: seq<byte>, i: nat)
    requires i <= |s|
    ensures Quiet(s, i) <==> Bracketed(s, i, 0)
    decreases |s| - i
  {
    if i < |s| && !IsMarker(s[i]) {
      if s[i] != ESCAPE {
        QuietIsBracketed(s, i + 1);
      } else if i + 1 < |s| {
        QuietIsBracketed(s, i + 2);
      }
    }
  }

  lemma {:induction false} FinishIffBracketed(s: seq<byte>, i: nat, frames: seq<Frame>)
    requires i <= |s| && frames != []
    ensures Finish(s, i, frames).Some? <==> Bracketed(s, i, |frames|)
    decreases |s| - i
  {
    if i < |s| {
      StepKeepsOutcome(s, i, frames);
      match Step(s, i, frames) {
        case Throw =>
        case Continue(next, after) =>
          if after == [] {
            QuietIsBracketed(s, next);
          } else {
            FinishIffBracketed(s, next, after);
          }
      }
    }
  }

  /** Finishing with only the outermost node open is the grammar of the whole file. */
  lemma {:induction false} DocumentIsFinish(s: seq<byte>)
    requires |s| > MINIMAL_SIZE
    ensures Document(s) == if s[IDENTIFIER_SIZE] != START then None else
              Finish(s, IDENTIFIER_SIZE + 2, [Frame(s[IDENTIFIER_SIZE + 1], IDENTIFIER_SIZE + 2, 0, [])])
  {
    var i := IDENTIFIER_SIZE + 2;
    var root := Frame(s[i - 1], i, 0, []);
    match ParseChildren(s, i) {
      case None =>
      case Some((children, next)) => assert [] + children == children;
    }
  }

  /** A file has a tree exactly when it opens with START and its brackets match. */
  lemma {:induction false} ParsesIffBracketed(s: seq<byte>)
    requires |s| > MINIMAL_SIZE
    ensures Document(s).Some?
       <==> s[IDENTIFIER_SIZE] == START && Bracketed(s, IDENTIFIER_SIZE + 2, 1)
  {
    DocumentIsFinish(s);
    FinishIffBracketed(s, IDENTIFIER_SIZE + 2, [Frame(s[IDENTIFIER_SIZE + 1], IDENTIFIER_SIZE + 2, 0, [])]);
  }

  // ----- Escaping ------------------------------------------------------------------------------

  /** The bytes of `s[lo..hi]` without every ESCAPE that is not itself escaped; `escaped` tells whether the
      byte before `lo` was dropped. */
  function Unescape(s: seq<byte>, lo: nat, hi: nat, escaped: bool): (r: seq<byte>)
    requires lo <= hi <= |s|
    ensures |r| <= hi - lo
    decreases hi - lo
  {
    if lo == hi then []
    else if s[lo] == ESCAPE && !escaped then Unescape(s, lo + 1, hi, true)
    else [s[lo]] + Unescape(s, lo + 1, hi, false)
  }

  function EscapeByte(b: byte): seq<byte> {
    if b == ESCAPE || IsMarker(b) then [ESCAPE, b] else [b]
  }

  function Escape(props: seq<byte>): seq<byte> {
    if props == [] then [] else EscapeByte(props[0]) + Escape(props[1..])
  }

  lemma {:induction false} UnescapeEscape(s: seq<byte>, i: nat, props: seq<byte>)
    requires At(s, i, Escape(props))
    ensures Unescape(s, i, i + |Escape(props)|, false) == props
    decreases props
  {
    if props != [] {
      var head := EscapeByte(props[0]);
      AtSplit(s, i, head, Escape(props[1..]));
      UnescapeEscape(s, i + |head|, props[1..]);
      var last := |head| - 1;
      assert s[i + 0] == head[0] && s[i + last] == head[last] == props[0];
    }
  }

  // ----- The writer the format implies ---------------------------------------------------------

  /** A node before it is written: its type byte, its property bytes, and its children. */
  datatype Source = Source(kind: byte, props: seq<byte>, children: seq<Source>)

  function Encode(t: Source): (r: seq<byte>)
    ensures |r| >= 3
    decreases t
  {
    [START, t.kind] + Escape(t.props) + EncodeAll(t.children) + [END]
  }

  function EncodeAll(ts: seq<Source>): seq<byte>
    decreases ts
  {
    if ts == [] then [] else Encode(ts[0]) + EncodeAll(ts[1..])
  }

  /** The tree of `Encode(t)` when it starts at offset `i` of a file. */
  function Located(t: Source, i: nat): Tree
    decreases t
  {
    var propsEnd := i + 2 + |Escape(t.props)|;
    Tree(t.kind, i + 2, propsEnd, LocatedAll(t.children, propsEnd))
  }

  function LocatedAll(ts: seq<Source>, i: nat): (r: seq<Tree>)
    ensures |r| == |ts|
    decreases ts
  {
    if ts == [] then [] else [Located(ts[0], i)] + LocatedAll(ts[1..], i + |Encode(ts[0])|)
  }

  /** What a reader gets who asks for the type, the children and the properties of every node. */
  function Decoded(s: seq<byte>, t: Tree): Option<Source>
    decreases t
  {
    if t.propsBegin <= t.propsEnd <= |s| then
      match DecodedAll(s, t.children)
      case None => None
      case Some(children) => Some(Source(t.kind, Unescape(s, t.propsBegin, t.propsEnd, false), children))
    else None
  }

  function DecodedAll(s: seq<byte>, ts: seq<Tree>): Option<seq<Source>>
    decreases ts
  {
    if ts == [] then Some([])
    else
      match (Decoded(s, ts[0]), DecodedAll(s, ts[1..]))
      case (Some(first), Some(rest)) => Some([first] + rest)
      case _ => None
  }

  lemma {:induction false} Associates(x: seq<byte>, y: seq<byte>, z: seq<byte>)
    ensures (x + y) + z == x + (y + z)
  {
  }

  /** The parts of an encoded node that stands at `i`. */
  lemma {:induction false} EncodedAt(s: seq<byte>, i: nat, t: Source)
    requires At(s, i, Encode(t))
    ensures i + 2 < |s| && s[i] == START && s[i + 1] == t.kind
    ensures At(s, i + 2, Escape(t.props))
    ensures At(s, i + 2 + |Escape(t.props)|, EncodeAll(t.children) + [END])
    ensures |Encode(t)| == 2 + |Escape(t.props)| + |EncodeAll(t.children)| + 1
  {
    var head, props, rest := [START, t.kind], Escape(t.props), EncodeAll(t.children);
    Associates(head + props, rest, [END]);
    Associates(head, props, rest + [END]);
    AtSplit(s, i, head, props + (rest + [END]));
    AtSplit(s, i + 2, props, rest + [END]);
    assert s[i + 0] == head[0] && s[i + 1] == head[1];
  }

  /** The parts of a nonempty list of encoded nodes that stands at `i`. */
  lemma {:induction false} EncodedAllAt(s: seq<byte>, i: nat, ts: seq<Source>, end: seq<byte>)
    requires ts != [] && At(s, i, EncodeAll(ts) + end)
    ensures At(s, i, Encode(ts[0]))
    ensures At(s, i + |Encode(ts[0])|, EncodeAll(ts[1..]) + end)
    ensures |EncodeAll(ts)| == |Encode(ts[0])| + |EncodeAll(ts[1..])|
  {
    var first, rest := Encode(ts[0]), EncodeAll(ts[1..]);
    Associates(first, rest, end);
    AtSplit(s, i, first, rest + end);
  }

  lemma {:induction false} EscapedHasNoMarker(s: seq<byte>, i: nat, props: seq<byte>)
    requires At(s, i, Escape(props))
    ensures NextMarker(s, i) == NextMarker(s, i + |Escape(props)|)
    decreases props
  {
    if props != [] {
      var head := EscapeByte(props[0]);
      AtSplit(s, i, head, Escape(props[1..]));
      EscapedHasNoMarker(s, i + |head|, props[1..]);
      assert s[i] == head[0];
    }
  }

  lemma {:induction false} ParseEncoded(s: seq<byte>, i: nat, t: Source)
    requires At(s, i, Encode(t))
    ensures i + 1 < |s| && s[i] == START
    ensures ParseNode(s, i + 1) == Some((Located(t, i), i + |Encode(t)|))
    decreases t, 0
  {
    EncodedAt(s, i, t);
    var j := i + 2 + |Escape(t.props)|;
    ParseAllEncoded(s, j, t.children);
    ChildrenBehindProps(s, i + 2, j, t);
  }

  lemma {:induction false} ChildrenBehindProps(s: seq<byte>, i: nat, j: nat, t: Source)
    requires At(s, i, Escape(t.props)) && j == i + |Escape(t.props)|
    requires At(s, j, EncodeAll(t.children) + [END])
    ensures NextMarker(s, i) == Some(j)
    ensures ParseChildren(s, i) == ParseChildren(s, j)
  {
    EscapedHasNoMarker(s, i, t.props);
    EncodedOpensWithMarker(s, j, t.children);
  }

  lemma {:induction false} ParseAllEncoded(s: seq<byte>, i: nat, ts: seq<Source>)
    requires At(s, i, EncodeAll(ts) + [END])
    ensures ParseChildren(s, i) == Some((LocatedAll(ts, i), i + |EncodeAll(ts)| + 1))
    decreases ts, 0
  {
    if ts == [] {
      assert s[i] == (EncodeAll(ts) + [END])[0] == END;
    } else {
      EncodedAllAt(s, i, ts, [END]);
      ParseEncoded(s, i, ts[0]);
      ParseAllEncoded(s, i + |Encode(ts[0])|, ts[1..]);
      EncodeAllCons(ts);
      hide Encode, EncodeAll;
    }
  }

  lemma {:induction false} EncodeAllCons(ts: seq<Source>)
    requires ts != []
    ensures |EncodeAll(ts)| == |Encode(ts[0])| + |EncodeAll(ts[1..])|
  {
  }

  lemma {:induction false} EncodedOpensWithMarker(s: seq<byte>, i: nat, ts: seq<Source>)
    requires At(s, i, EncodeAll(ts) + [END])
    ensures NextMarker(s, i) == Some(i)
  {
    if ts == [] {
      assert s[i] == (EncodeAll(ts) + [END])[0] == END;
    } else {
      EncodedAllAt(s, i, ts, [END]);
      EncodedAt(s, i, ts[0]);
    }
  }

  lemma {:induction false} DecodeLocated(s: seq<byte>, i: nat, t: Source)
    requires At(s, i, Encode(t))
    ensures Decoded(s, Located(t, i)) == Some(t)
    decreases t, 0
  {
    EncodedAt(s, i, t);
    UnescapeEscape(s, i + 2, t.props);
    DecodeAllLocated(s, i + 2 + |Escape(t.props)|, t.children, [END]);
  }

  lemma {:induction false} DecodeAllLocated(s: seq<byte>, i: nat, ts: seq<Source>, end: seq<byte>)
    requires At(s, i, EncodeAll(ts) + end)
    ensures DecodedAll(s, LocatedAll(ts, i)) == Some(ts)
    decreases ts, 0
  {
    if ts != [] {
      EncodedAllAt(s, i, ts, end);
      DecodeLocated(s, i, ts[0]);
      DecodeAllLocated(s, i + |Encode(ts[0])|, ts[1..], end);
      assert LocatedAll(ts, i)[1..] == LocatedAll(ts[1..], i + |Encode(ts[0])|);
      assert [ts[0]] + ts[1..] == ts;
    }
  }

  /** Every node of a parsed file has a property range inside the file, so `GetProps` may be asked of it. */
  lemma {:induction false} ParsedNodeDecodes(s: seq<byte>, i: nat)
    requires i < |s| && ParseNode(s, i).Some?
    ensures Decoded(s, ParseNode(s, i).value.0).Some?
    decreases |s| - i
  {
    ParsedChildrenDecode(s, i + 1);
  }

  lemma {:induction false} ParsedChildrenDecode(s: seq<byte>, i: nat)
    requires i <= |s| && ParseChildren(s, i).Some?
    ensures DecodedAll(s, ParseChildren(s, i).value.0).Some?
    decreases |s| - i
  {
    var q := NextMarker(s, i).value;
    if s[q] == START {
      var (child, next) := ParseNode(s, q + 1).value;
      var rest := ParseChildren(s, next).value.0;
      ParsedNodeDecodes(s, q + 1);
      ParsedChildrenDecode(s, next);
      assert ([child] + rest)[1..] == rest;
    }
  }

  /** A node byte by byte: start mark, type, properties with every mark and escape mark escaped, children, end mark. */
  lemma {:induction false} NodeOnDisk()
    ensures Encode(Source(7, [0x41, 0xFD, 0xFE, 0xFF], [Source(1, [], [])]))
         == [0xFE, 7, 0x41, 0xFD, 0xFD, 0xFD, 0xFE, 0xFD, 0xFF, 0xFE, 1, 0xFF, 0xFF]
  {
    var child := Source(1, [], []);
    var props: seq<byte> := [0x41, 0xFD, 0xFE, 0xFF];
    assert Encode(child) == [0xFE, 1, 0xFF];
    assert EncodeAll([child]) == [0xFE, 1, 0xFF] by {
      assert [child][1..] == [] && EncodeAll([]) == [];
    }
    assert props[1..] == [0xFD, 0xFE, 0xFF] && props[1..][1..] == [0xFE, 0xFF] && props[1..][1..][1..] == [0xFF];
    assert Escape([0xFF]) == [0xFD, 0xFF] by {
      assert Escape([]) == [];
    }
    assert Escape([0xFE, 0xFF]) == [0xFD, 0xFE, 0xFD, 0xFF];
    assert Escape([0xFD, 0xFE, 0xFF]) == [0xFD, 0xFD, 0xFD, 0xFE, 0xFD, 0xFF];
    assert Escape(props) == [0x41, 0xFD, 0xFD, 0xFD, 0xFE, 0xFD, 0xFF];
  }

  /** The constructor's test: long enough, and the expected or the wildcard identifier. */
  predicate Accepts(contents: seq<byte>, acceptedIdentifier: seq<byte>) {
    && |contents| > MINIMAL_SIZE
    && (contents[..IDENTIFIER_SIZE] == acceptedIdentifier || contents[..IDENTIFIER_SIZE] == [0, 0, 0, 0])
  }

  lemma {:induction false} BareEncoding(t: Source)
    ensures |Encode(t)| == 3 <==> t.props == [] && t.children == []
  {
    EncodedAt(Encode(t), 0, t);
    if t.children != [] {
      assert |Encode(t.children[0])| >= 3;
    }
  }

  /** Reading back what was written gives the same tree, whatever its property bytes are.  The one tree
      that a loader turns down is the bare root: its file is exactly as long as the size that the
      constructor still refuses. */
  lemma {:induction false} RoundTrip(identifier: seq<byte>, t: Source)
    requires |identifier| == IDENTIFIER_SIZE
    ensures Accepts(identifier + Encode(t), identifier) <==> t.props != [] || t.children != []
    ensures Accepts(identifier + Encode(t), identifier) ==>
              && Document(identifier + Encode(t)).Some?
              && Decoded(identifier + Encode(t), Document(identifier + Encode(t)).value) == Some(t)
  {
    var s := identifier + Encode(t);
    BareEncoding(t);
    assert s[..IDENTIFIER_SIZE] == identifier;
    assert forall k | 0 <= k < |Encode(t)| :: s[IDENTIFIER_SIZE + k] == Encode(t)[k];
    ParseEncoded(s, IDENTIFIER_SIZE, t);
    DecodeLocated(s, IDENTIFIER_SIZE, t);
    assert Quiet(s, |s|);
  }

  /** A file of nothing but a bare root is refused. */
  lemma {:induction false} BareRootRefused(identifier: seq<byte>, nodeType: byte)
    requires |identifier| == IDENTIFIER_SIZE
    ensures !Accepts(identifier + Encode(Source(nodeType, [], [])), identifier)
  {
    RoundTrip(identifier, Source(nodeType, [], []));
  }

  // ----- The loader ----------------------------------------------------------------------------

  class Node {
    var children: seq<Node>
    var propsBegin: nat
    var propsEnd: nat
    var kind: byte

    constructor ()
      ensures children == []
    {
      children, propsBegin, propsEnd, kind := [], 0, 0, 0;
    }
  }

  /** The objects `nodes` spell out the tree `t` from `n` down. */
  ghost predicate Represents(n: Node, t: Tree, nodes: set<Node>)
    reads nodes
    decreases t
  {
    && n in nodes
    && n.kind == t.kind && n.propsBegin == t.propsBegin && n.propsEnd == t.propsEnd
    && |n.children| == |t.children|
    && forall k | 0 <= k < |t.children| :: Represents(n.children[k], t.children[k], nodes)
  }

  lemma {:induction false} RepresentsInMore(n: Node, t: Tree, nodes: set<Node>, more: set<Node>)
    requires Represents(n, t, nodes) && nodes <= more
    ensures Represents(n, t, more)
    decreases t
  {
    forall k | 0 <= k < |t.children| ensures Represents(n.children[k], t.children[k], more) {
      RepresentsInMore(n.children[k], t.children[k], nodes, more);
    }
  }

  /** A node whose children are all represented is itself represented once it joins the set, and so is all
      that was represented before. */
  lemma {:induction false} CloseKeeps(n: Node, t: Tree, nodes: set<Node>)
    requires n !in nodes
    requires n.kind == t.kind && n.propsBegin == t.propsBegin && n.propsEnd == t.propsEnd
    requires |n.children| == |t.children|
    requires forall k | 0 <= k < |t.children| :: Represents(n.children[k], t.children[k], nodes)
    ensures Represents(n, t, nodes + {n})
    ensures forall m: Node, u: Tree | m in nodes && Represents(m, u, nodes) :: Represents(m, u, nodes + {n})
  {
    forall m: Node, u: Tree | m in nodes && Represents(m, u, nodes) ensures Represents(m, u, nodes + {n}) {
      RepresentsInMore(m, u, nodes, nodes + {n});
    }
  }

  /** The object `n` is still open and agrees with the frame `f`.  Its finished children come first; when
      `inside` holds the next open node, that node is its last child. */
  ghost predicate Open(n: Node, f: Frame, inside: Option<Node>, nodes: set<Node>)
    reads n, nodes
  {
    && n !in nodes
    && n.kind == f.kind && n.propsBegin == f.propsBegin
    && (n.children != [] ==> n.propsEnd == f.propsEnd)
    && |n.children| == |f.done| + (if inside.Some? then 1 else 0)
    && (inside.Some? ==> n.children[|f.done|] == inside.value)
    && forall k | 0 <= k < |f.done| :: Represents(n.children[k], f.done[k], nodes)
  }

  function Above(stack: seq<Node>, i: nat): Option<Node> {
    if i + 1 < |stack| then Some(stack[i + 1]) else None
  }

  /** The parse stack agrees with the frames, and every stacked node but the first is the last child of
      the one below it, so that adding a child to the top moves no stacked node. */
  ghost predicate StackAgrees(stack: seq<Node>, frames: seq<Frame>, nodes: set<Node>)
    reads stack, nodes
  {
    && |stack| == |frames|
    && Distinct(stack)
    && forall i | 0 <= i < |stack| :: Open(stack[i], frames[i], Above(stack, i), nodes)
  }

  class Loader {
    const fileContents: seq<byte>
    var root: Node
    var propBuffer: seq<byte>

    constructor (contents: seq<byte>)
      ensures fileContents == contents
      ensures fresh(root) && root.children == []
    {
      fileContents := contents;
      root := new Node();
      propBuffer := [];
    }

    /** Opens a file; null stands for the exception. */
    static method Load(contents: seq<byte>, acceptedIdentifier: seq<byte>) returns (loader: Loader?)
      requires |acceptedIdentifier| == IDENTIFIER_SIZE
      ensures loader != null <==> Accepts(contents, acceptedIdentifier)
      ensures loader != null <==> |contents| > 7
                                  && (contents[..4] == acceptedIdentifier || contents[..4] == [0, 0, 0, 0])
      ensures loader != null ==>
                fresh(loader) && fresh(loader.root) && loader.root.children == [] && loader.fileContents == contents
    {
      if |contents| <= MINIMAL_SIZE {
        return null;
      }
      var fileIdentifier := contents[..IDENTIFIER_SIZE];
      if fileIdentifier != acceptedIdentifier && fileIdentifier != [0, 0, 0, 0] {
        return null;
      }
      loader := new Loader(contents);
    }

    /** Copies a node's properties without their escapes; false when there are none. */
    method GetProps(node: Node) returns (ok: bool, props: seq<byte>)
      requires node.propsBegin <= node.propsEnd <= |fileContents|
      modifies `propBuffer
      ensures ok <==> node.propsBegin < node.propsEnd
      ensures props == Unescape(fileContents, node.propsBegin, node.propsEnd, false)
      ensures ok ==> |props| <= |propBuffer| && props == propBuffer[..|props|]
      ensures !ok ==> propBuffer == old(propBuffer)
    {
      var size := node.propsEnd - node.propsBegin;
      if size == 0 {
        return false, [];
      }
      propBuffer := seq(size, _ => 0);
      var lastEscaped := false;
      props := [];
      for i := node.propsBegin to node.propsEnd
        invariant |props| <= i - node.propsBegin && |propBuffer| == size
        invariant forall k | 0 <= k < |props| :: propBuffer[k] == props[k]
        invariant Unescape(fileContents, node.propsBegin, node.propsEnd, false)
               == props + Unescape(fileContents, i, node.propsEnd, lastEscaped)
      {
        var byte := fileContents[i];
        lastEscaped := byte == ESCAPE && !lastEscaped;
        if !lastEscaped {
          ghost var rest := Unescape(fileContents, i + 1, node.propsEnd, false);
          assert props + ([byte] + rest) == props + [byte] + rest;
          propBuffer := propBuffer[|props| := byte];
          props := props + [byte];
        }
      }
      ok := true;
    }

    /** A START at `it`: the top of the stack ends its properties if this is its first child, and gets a
        child that becomes the new top. */
    method OpenChild(parseStack: seq<Node>, it: nat, ghost frames: seq<Frame>, ghost nodes: set<Node>)
      returns (child: Node)
      requires it + 1 < |fileContents|
      requires parseStack != [] && StackAgrees(parseStack, frames, nodes)
      modifies parseStack[|parseStack| - 1]
      ensures fresh(child)
      ensures StackAgrees(parseStack + [child],
                          MarkPropsEnd(frames, it) + [Frame(fileContents[it + 1], it + 2, 0, [])], nodes)
    {
      var top := |parseStack| - 1;
      var currentNode := parseStack[top];
      assert Open(currentNode, frames[top], None, nodes);
      if currentNode.children == [] {
        currentNode.propsEnd := it;
      }
      child := new Node();
      child.kind := fileContents[it + 1];
      child.propsBegin := it + 2;
      currentNode.children := currentNode.children + [child];

      ghost var stack := parseStack + [child];
      ghost var after := MarkPropsEnd(frames, it) + [Frame(child.kind, it + 2, 0, [])];
      forall i | 0 <= i < |stack| ensures Open(stack[i], after[i], Above(stack, i), nodes) {
        if i < top {
          assert old(Open(parseStack[i], frames[i], Above(parseStack, i), nodes));
        }
      }
    }

    /** An END at `it`: the top of the stack ends its properties if it has no child, and is finished. */
    method CloseTop(parseStack: seq<Node>, it: nat, ghost frames: seq<Frame>, ghost nodes: set<Node>)
      requires parseStack != [] && StackAgrees(parseStack, frames, nodes)
      modifies parseStack[|parseStack| - 1]
      ensures Represents(parseStack[|parseStack| - 1], ClosedAt(frames[|frames| - 1], it),
                         nodes + {parseStack[|parseStack| - 1]})
      ensures |parseStack| > 1 ==>
                StackAgrees(parseStack[..|parseStack| - 1],
                            Attach(frames[..|frames| - 1], ClosedAt(frames[|frames| - 1], it)),
                            nodes + {parseStack[|parseStack| - 1]})
    {
      var top := |parseStack| - 1;
      var currentNode := parseStack[top];
      assert Open(currentNode, frames[top], None, nodes);
      if currentNode.children == [] {
        currentNode.propsEnd := it;
      }

      ghost var t := ClosedAt(frames[top], it);
      ghost var more := nodes + {currentNode};
      CloseKeeps(currentNode, t, nodes);
      if top > 0 {
        ghost var stack := parseStack[..top];
        ghost var after := Attach(frames[..top], t);
        forall i | 0 <= i < top ensures Open(stack[i], after[i], Above(stack, i), more) {
          assert old(Open(parseStack[i], frames[i], Above(parseStack, i), nodes));
          assert Open(parseStack[i], frames[i], Above(parseStack, i), nodes);
        }
      }
    }

    /** The loop's body: one byte, or two behind an ESCAPE or a START. */
    method ParseByte(parseStack: seq<Node>, it: nat, ghost frames: seq<Frame>, ghost nodes: set<Node>)
      returns (thrown: bool, parseStack': seq<Node>, it': nat, ghost nodes': set<Node>)
      requires it < |fileContents| && StackAgrees(parseStack, frames, nodes)
      modifies if parseStack == [] then {} else {parseStack[|parseStack| - 1]}
      ensures thrown <==> Step(fileContents, it, frames).Throw?
      ensures !thrown ==>
                && it' == Step(fileContents, it, frames).next
                && StackAgrees(parseStack', Step(fileContents, it, frames).frames, nodes')
                && (parseStack == [] ==> parseStack' == [] && nodes' == nodes)
                && (parseStack' == [] && parseStack != [] ==>
                      Represents(parseStack[0], ClosedAt(frames[0], it), nodes'))
                && (|parseStack'| > 0 ==> |parseStack| > 0 && parseStack'[0] == parseStack[0])
      ensures !thrown ==> forall n | n in parseStack' :: n in parseStack || fresh(n)
    {
      thrown, parseStack', it', nodes' := false, parseStack, it, nodes;
      var b := fileContents[it];
      if b == START {
        if parseStack == [] || it + 1 == |fileContents| {
          thrown := true;
        } else {
          var child := OpenChild(parseStack, it, frames, nodes);
          parseStack' := parseStack + [child];
          it' := it' + 1;
        }
      } else if b == END {
        if parseStack == [] {
          thrown := true;
        } else {
          var top := |parseStack| - 1;
          CloseTop(parseStack, it, frames, nodes);
          nodes' := nodes + {parseStack[top]};
          parseStack' := parseStack[..top];
        }
      } else if b == ESCAPE {
        it' := it' + 1;
        thrown := it' == |fileContents|;
      }
      it' := it' + 1;
    }

    /** Walks the file once.  Its verdict and its tree are the grammar's. */
    method ParseTree() returns (ok: bool, ghost nodes: set<Node>)
      requires |fileContents| > MINIMAL_SIZE
      requires root.children == []
      modifies root
      ensures ok <==> Document(fileContents).Some?
      ensures ok ==> Represents(root, Document(fileContents).value, nodes)
    {
      var it := IDENTIFIER_SIZE;
      nodes := {};
      if fileContents[it] != START {
        return false, nodes;
      }
      it := it + 1;
      root.kind := fileContents[it];
      it := it + 1;
      root.propsBegin := it;
      var parseStack := [root];

      ghost var frames := [Frame(fileContents[it - 1], it, 0, [])];
      ghost var result := Document(fileContents);
      DocumentIsFinish(fileContents);
      while it < |fileContents|
        invariant IDENTIFIER_SIZE <= it <= |fileContents|
        invariant unchanged(this)
        invariant forall n | n in parseStack :: n == root || fresh(n)
        invariant StackAgrees(parseStack, frames, nodes)
        invariant |frames| > 0 ==> result == Finish(fileContents, it, frames) && parseStack[0] == root
        invariant |frames| == 0 ==> (result.Some? <==> Quiet(fileContents, it))
        invariant |frames| == 0 && result.Some? ==> Represents(root, result.value, nodes)
      {
        ghost var turn := Step(fileContents, it, frames);
        if |frames| > 0 {
          StepKeepsOutcome(fileContents, it, frames);
        }
        assert |parseStack| > 0 ==> parseStack[|parseStack| - 1] in parseStack;
        var thrown;
        thrown, parseStack, it, nodes := ParseByte(parseStack, it, frames, nodes);
        if thrown {
          return false, nodes;
        }
        frames := turn.frames;
      }
      ok := parseStack == [];
    }
  }
}
