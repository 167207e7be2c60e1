/**
 * The mermaid fence rewriting of pymerdoc/main.py (_process_mermaid_blocks):
 * one left-to-right, non-overlapping substitution of the pattern
 *   ```mermaid\n(.*?)\n```        (with re.DOTALL)
 * by <div class="mermaid">\n...\n</div>, keeping the captured text.
 */
module Mermaid {
  import opened Wrappers

  /** The opening fence; the captured text starts right after it. */
  const Open: string := "```mermaid\n"
  /** The closing fence; the non-greedy `.*?` stops at its first occurrence. */
  const Close: string := "\n```"
  const DivOpen: string := "<div class=\"mermaid\">\n"
  const DivClose: string := "\n</div>"

  /** The replacement the callback returns for captured text `content`. */
  function Wrap(content: string): string {
    DivOpen + content + DivClose
  }

  predicate OpenAt(s: string, p: int) {
    0 <= p && p + |Open| <= |s| && s[p..p + |Open|] == Open
  }

  predicate CloseAt(s: string, q: int) {
    0 <= q && q + |Close| <= |s| && s[q..q + |Close|] == Close
  }

  /** The first closing fence that starts at or after `from`. */
  function FindClose(s: string, from: nat): (r: Option<nat>)
    decreases |s| - from
    ensures r.Some? ==> from <= r.value && CloseAt(s, r.value) &&
                        forall q :: from <= q < r.value ==> !CloseAt(s, q)
    ensures r.None? ==> forall q :: from <= q ==> !CloseAt(s, q)
  {
    if from + |Close| > |s| then None
    else if s[from..from + |Close|] == Close then Some(from)
    else FindClose(s, from + 1)
  }

  /**
   * The substitution. At each position, if an opening fence starts there
   * and a closing fence follows it, the whole match is replaced and the
   * scan resumes after it; otherwise one character is copied and the scan
   * moves on by one.
   */
  function Rewrite(s: string): string
    decreases |s|
  {
    if s == [] then []
    else if OpenAt(s, 0) && FindClose(s, |Open|).Some? then
      var q := FindClose(s, |Open|).value;
      Wrap(s[|Open|..q]) + Rewrite(s[q + |Close|..])
    else [s[0]] + Rewrite(s[1..])
  }

  /** A piece of the input as the scan sees it: a copied character or a matched block. */
  datatype Piece = Char(ch: char) | Block(content: string)

  /** The input split into copied characters and matched blocks, left to right. */
  function Parse(s: string): seq<Piece>
    decreases |s|
  {
    if s == [] then []
    else if OpenAt(s, 0) && FindClose(s, |Open|).Some? then
      var q := FindClose(s, |Open|).value;
      [Block(s[|Open|..q])] + Parse(s[q + |Close|..])
    else [Char(s[0])] + Parse(s[1..])
  }

  /** The text a sequence of pieces was read from. */
  function Source(ps: seq<Piece>): string {
    if ps == [] then []
    else
      (match ps[0]
       case Char(c) => [c]
       case Block(content) => Open + content + Close) + Source(ps[1..])
  }

  /** The text a sequence of pieces is written as: characters unchanged, blocks wrapped. */
  function Render(ps: seq<Piece>): string {
    if ps == [] then []
    else
      (match ps[0]
       case Char(c) => [c]
       case Block(content) => Wrap(content)) + Render(ps[1..])
  }

  /**
   * The substitution is the parse rendered: every matched block is
   * wrapped and every other character is kept, in order.
   */
  lemma {:induction false} RewriteRendersPieces(s: string)
    ensures Rewrite(s) == Render(Parse(s))
    decreases |s|
  {
    if s == [] {
    } else if OpenAt(s, 0) && FindClose(s, |Open|).Some? {
      var q := FindClose(s, |Open|).value;
      var rest := s[q + |Close|..];
      RewriteRendersPieces(rest);
      assert ([Block(s[|Open|..q])] + Parse(rest))[1..] == Parse(rest);
    } else {
      RewriteRendersPieces(s[1..]);
      assert ([Char(s[0])] + Parse(s[1..]))[1..] == Parse(s[1..]);
    }
  }

  /** No closing fence starts anywhere in `c`. */
  predicate NoClose(c: string) {
    forall q :: 0 <= q <= |c| ==> !CloseAt(c, q)
  }

  /** No piece's captured text contains a closing fence. */
  predicate BlocksClosed(ps: seq<Piece>) {
    forall i :: 0 <= i < |ps| && ps[i].Block? ==> NoClose(ps[i].content)
  }

  /** A closing fence in the middle of s lies inside the suffix s[d..] at q - d. */
  lemma CloseAtShift(s: string, d: nat, q: int)
    requires d <= |s| && 0 <= q
    ensures CloseAt(s[d..], q) <==> CloseAt(s, q + d)
  {
    if 0 <= q && q + |Close| <= |s| - d {
      assert s[d..][q..q + |Close|] == s[q + d..q + d + |Close|];
    }
  }

  /** A sequence is the concatenation of its slices at three cut points. */
  lemma Split3(s: string, a: nat, b: nat, c: nat)
    requires a <= b <= c <= |s|
    ensures s == s[..a] + s[a..b] + s[b..c] + s[c..]
  {
  }

  /** An opening fence in the middle of s lies inside the suffix s[d..] at p - d. */
  lemma OpenAtShift(s: string, d: nat, p: int)
    requires d <= |s| && 0 <= p
    ensures OpenAt(s[d..], p) <==> OpenAt(s, p + d)
  {
    if p + |Open| <= |s| - d {
      assert s[d..][p..p + |Open|] == s[p + d..p + d + |Open|];
    }
  }

  /**
   * Reading the pieces back gives the input: the text outside the matched
   * blocks is kept, in its original order, and each block is exactly an
   * opening fence, the captured text and a closing fence.
   */
  lemma {:induction false} ParseReadsInput(s: string)
    ensures Source(Parse(s)) == s
    decreases |s|
  {
    if s == [] {
    } else if OpenAt(s, 0) && FindClose(s, |Open|).Some? {
      var q := FindClose(s, |Open|).value;
      var content := s[|Open|..q];
      var rest := s[q + |Close|..];
      ParseReadsInput(rest);
      var ps := [Block(content)] + Parse(rest);
      assert ps[1..] == Parse(rest);
      assert Source(ps) == Open + content + Close + Source(Parse(rest));
      Split3(s, |Open|, q, q + |Close|);
    } else {
      ParseReadsInput(s[1..]);
      assert ([Char(s[0])] + Parse(s[1..]))[1..] == Parse(s[1..]);
      assert s == [s[0]] + s[1..];
    }
  }

  /** The captured text of a match stops at the first closing fence, so it holds none. */
  lemma CapturedHasNoClose(s: string)
    requires OpenAt(s, 0) && FindClose(s, |Open|).Some?
    ensures NoClose(s[|Open|..FindClose(s, |Open|).value])
  {
    var r := FindClose(s, |Open|);
    var q := r.value;
    var content := s[|Open|..q];
    assert forall p :: |Open| <= p < q ==> !CloseAt(s, p);
    forall k | 0 <= k <= |content| ensures !CloseAt(content, k) {
      if k + |Close| <= |content| {
        var p := |Open| + k;
        assert |Open| <= p < q;
        assert !CloseAt(s, p);
        var mine, theirs := content[k..k + |Close|], s[p..p + |Close|];
        forall i | 0 <= i < |Close| ensures mine[i] == theirs[i] {
          assert content[k + i] == s[p + i];
        }
        assert mine == theirs;
      }
    }
  }

  /** No captured text contains a closing fence: each block ends at the first one. */
  lemma {:induction false} ParsedBlocksClosed(s: string)
    ensures BlocksClosed(Parse(s))
    decreases |s|
  {
    if s == [] {
    } else if OpenAt(s, 0) && FindClose(s, |Open|).Some? {
      var q := FindClose(s, |Open|).value;
      var rest := s[q + |Close|..];
      ParsedBlocksClosed(rest);
      CapturedHasNoClose(s);
      var ps := Parse(s);
      assert ps == [Block(s[|Open|..q])] + Parse(rest);
      forall i | 0 <= i < |ps| && ps[i].Block? ensures NoClose(ps[i].content) {
        if i > 0 {
          assert ps[i] == Parse(rest)[i - 1];
        }
      }
    } else {
      ParsedBlocksClosed(s[1..]);
      var ps := Parse(s);
      assert ps == [Char(s[0])] + Parse(s[1..]);
      forall i | 0 <= i < |ps| && ps[i].Block? ensures NoClose(ps[i].content) {
        assert ps[i] == Parse(s[1..])[i - 1];
      }
    }
  }

  /** Text with no opening fence anywhere is returned unchanged. */
  lemma {:induction false} NoFenceUnchanged(s: string)
    requires forall p :: !OpenAt(s, p)
    ensures Rewrite(s) == s
    decreases |s|
  {
    if s != [] {
      assert !OpenAt(s, 0);
      forall p ensures !OpenAt(s[1..], p) {
        if 0 <= p && p + |Open| <= |s| - 1 {
          assert s[1..][p..p + |Open|] == s[p + 1..p + 1 + |Open|];
          assert !OpenAt(s, p + 1);
        }
      }
      NoFenceUnchanged(s[1..]);
      assert s == [s[0]] + s[1..];
    }
  }

  /** When no closing fence starts at or after `from`, the search finds none. */
  lemma {:induction false} NoCloseNotFound(s: string, from: nat)
    requires forall q :: from <= q ==> !CloseAt(s, q)
    ensures FindClose(s, from) == None
    decreases |s| - from
  {
    if from + |Close| <= |s| {
      assert !CloseAt(s, from);
      NoCloseNotFound(s, from + 1);
    }
  }

  /**
   * Text in which no closing fence starts after the length of an opening
   * fence is returned unchanged. In particular an opening fence at the
   * start with no closing fence after it is left as it is, and so is text
   * without any closing fence.
   */
  lemma {:induction false} UnclosedUnchanged(s: string)
    requires forall q :: |Open| <= q ==> !CloseAt(s, q)
    ensures Rewrite(s) == s
    decreases |s|
  {
    if s != [] {
      NoCloseNotFound(s, |Open|);
      forall q | |Open| <= q ensures !CloseAt(s[1..], q) {
        CloseAtShift(s, 1, q);
      }
      UnclosedUnchanged(s[1..]);
      assert s == [s[0]] + s[1..];
    }
  }

  /**
   * A complete block at the front, whose captured text holds no closing
   * fence, becomes the wrapped text followed by the rewritten rest; the
   * captured text is copied verbatim and may span several lines.
   */
  lemma BlockRewritten(content: string, rest: string)
    requires NoClose(content)
    ensures Rewrite(Open + content + Close + rest) == Wrap(content) + Rewrite(rest)
  {
    var s := Open + content + Close + rest;
    var q := |Open| + |content|;
    assert s[|Open|..q] == content;
    assert s[q..q + |Close|] == Close;
    assert s[q + |Close|..] == rest;
    assert OpenAt(s, 0) by { assert s[..|Open|] == Open; }
    forall k | |Open| <= k < q ensures !CloseAt(s, k) {
      if k + |Close| <= q {
        assert s[k..k + |Close|] == content[k - |Open|..k - |Open| + |Close|];
        assert !CloseAt(content, k - |Open|);
      } else {
        assert s[k..k + |Close|][q - k] == s[q] == '\n';
        assert Close[q - k] == '`';
      }
    }
    var r := FindClose(s, |Open|);
    assert r == Some(q) by {
      assert CloseAt(s, q);
      if r.Some? {
        assert !(r.value < q);
      }
    }
  }

  /** Text without a backtick holds no closing fence. */
  lemma NoBacktickNoClose(c: string)
    requires '`' !in c
    ensures NoClose(c)
  {
    forall q | 0 <= q <= |c| ensures !CloseAt(c, q) {
      if q + |Close| <= |c| {
        assert c[q..q + |Close|][1] == c[q + 1];
      }
    }
  }

  /**
   * The diagram from the editor's test: a document that is one two-line
   * block becomes one mermaid div around the same two lines.
   */
  lemma DiagramExample(doc: string, diagram: string)
    requires diagram == "graph TD\n    A-->B"
    requires doc == "```mermaid\n" + diagram + "\n```"
    ensures Rewrite(doc) == "<div class=\"mermaid\">\n" + diagram + "\n</div>"
  {
    NoBacktickNoClose(diagram);
    BlockRewritten(diagram, "");
    assert doc == Open + diagram + Close + "";
  }

  /** Where no opening fence starts, the scan copies one character. */
  lemma CopiesFirst(s: string)
    requires s != [] && !OpenAt(s, 0)
    ensures Rewrite(s) == [s[0]] + Rewrite(s[1..])
  {
  }

  /** If no fence opens inside t, none opens inside t's tail either. */
  lemma NoOpenInTail(t: string, u: string)
    requires t != [] && forall k :: 0 <= k < |t| ==> !OpenAt(t + u, k)
    ensures !OpenAt(t + u, 0)
    ensures forall k :: 0 <= k < |t| - 1 ==> !OpenAt(t[1..] + u, k)
  {
    var s := t + u;
    assert s[1..] == t[1..] + u;
    forall k | 0 <= k < |t| - 1 ensures !OpenAt(t[1..] + u, k) {
      OpenAtShift(s, 1, k);
      assert !OpenAt(s, k + 1);
    }
  }

  /** Putting the head of a non-empty t back in front of its tail. */
  lemma ConsTail(t: string, w: string)
    requires t != []
    ensures [t[0]] + (t[1..] + w) == t + w
  {
    assert t == [t[0]] + t[1..];
  }

  /** One step of the copy: the first character of t is copied and the rest of t + u is rewritten. */
  lemma PrefixStep(t: string, u: string)
    requires t != [] && !OpenAt(t + u, 0)
    requires Rewrite(t[1..] + u) == t[1..] + Rewrite(u)
    ensures Rewrite(t + u) == t + Rewrite(u)
  {
    var s, x := t + u, t[1..] + u;
    assert s[0] == t[0] && s[1..] == x;
    CopiesFirst(s);
    ConsTail(t, Rewrite(u));
  }

  /**
   * Text in which no opening fence starts is copied as it is, whatever
   * follows it: the scan moves past it one character at a time.
   */
  lemma {:induction false} PrefixCopied(t: string, u: string)
    requires forall k :: 0 <= k < |t| ==> !OpenAt(t + u, k)
    ensures Rewrite(t + u) == t + Rewrite(u)
    decreases |t|
  {
    if t != [] {
      NoOpenInTail(t, u);
      PrefixCopied(t[1..], u);
      PrefixStep(t, u);
    } else {
      assert t + u == u && t + Rewrite(u) == Rewrite(u);
    }
  }

  /**
   * An opening fence with no closing fence after it, reached after text
   * that starts no fence, is left as it is together with that text.
   */
  lemma UnclosedAfterPrefix(t: string, u: string)
    requires forall k :: 0 <= k < |t| ==> !OpenAt(t + u, k)
    requires forall q :: |Open| <= q ==> !CloseAt(u, q)
    ensures Rewrite(t + u) == t + u
  {
    PrefixCopied(t, u);
    UnclosedUnchanged(u);
  }

  /**
   * A complete block reached after text that starts no fence becomes a
   * mermaid div; the text before it is copied and the text after it is
   * rewritten in turn.
   */
  lemma BlockAfterPrefix(t: string, content: string, rest: string)
    requires forall k :: 0 <= k < |t| ==> !OpenAt(t + (Open + content + Close + rest), k)
    requires NoClose(content)
    ensures Rewrite(t + (Open + content + Close + rest)) == t + (Wrap(content) + Rewrite(rest))
  {
    PrefixCopied(t, Open + content + Close + rest);
    BlockRewritten(content, rest);
  }
}
