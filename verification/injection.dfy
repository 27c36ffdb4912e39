/** The pure text patch applied to the web client's `index.html`: detect a
    previous patch, otherwise insert the script block at the first anchor. */
module Injection {
  import opened AsciiText

  /** URL of the script the block loads. */
  const ScriptUrl: string := "/plugins/requests/assets/requests-implementation.js"
  /** Comment that opens the injected block. */
  const MarkerStart: string := "<!-- REQUESTS_BRIDGE_JS_START -->"
  /** Comment that closes the injected block. */
  const MarkerEnd: string := "<!-- REQUESTS_BRIDGE_JS_END -->"

  /** The preferred anchor: the block goes right after it. */
  const HeadOpen: string := "<head>"
  /** The fallback anchor: the block goes right before it. */
  const BodyClose: string := "</body>"

  /** Byte-for-byte the block written into the file. */
  const Block: string :=
    "\n" + MarkerStart + "\n<script src=\"" + ScriptUrl + "\" defer></script>\n" + MarkerEnd + "\n"

  /** Index of the script URL inside the block: after the leading newline,
      the start marker and `\n<script src="`. */
  const UrlOffset: nat := 1 + |MarkerStart| + 14

  /** The content counts as patched when it mentions both the start marker
      and the script URL, in any letter case. */
  predicate IsPatched(html: string)
  {
    ContainsCI(html, MarkerStart) && ContainsCI(html, ScriptUrl)
  }

  /** Where the block goes: just after the first `<head>`, else just before
      the first `</body>`, else at the end. */
  function InsertionPoint(html: string): (p: nat)
    ensures p <= |html|
  {
    var headPos := IndexOfCI(html, HeadOpen);
    var bodyEndPos := IndexOfCI(html, BodyClose);
    if headPos >= 0 then headPos + 6
    else if bodyEndPos >= 0 then bodyEndPos
    else |html|
  }

  /** The new file content computed from the old one. */
  function Patch(html: string): (r: string)
    ensures IsPatched(r)
    ensures IsPatched(html) ==> r == html
    ensures !IsPatched(html) ==> |r| == |html| + |Block|
  {
    if IsPatched(html) then html
    else
      var p := InsertionPoint(html);
      SpliceIsPatched(html[..p], html[p..]);
      html[..p] + Block + html[p..]
  }

  /** Whatever surrounds the block, the result passes the "already patched" test. */
  lemma SpliceIsPatched(pre: string, post: string)
    ensures IsPatched(pre + Block + post)
  {
    BlockLayout();
    MatchInContext(pre, Block, post, MarkerStart, 1);
    MatchInContext(pre, Block, post, ScriptUrl, UrlOffset);
    ContainsCIMeansOccurs(pre + Block + post, MarkerStart);
    ContainsCIMeansOccurs(pre + Block + post, ScriptUrl);
  }

  /** Unpatched content gets the block spliced in at the insertion point. */
  lemma PatchSplicesBlock(html: string)
    requires !IsPatched(html)
    ensures Patch(html) == html[..InsertionPoint(html)] + Block + html[InsertionPoint(html)..]
  {
  }

  /** The block starts and ends with a newline, opens with the start
      marker, closes with the end marker and carries the script URL. */
  lemma BlockLayout()
    ensures Block[0] == '\n' && Block[|Block| - 1] == '\n'
    ensures Block[1..1 + |MarkerStart|] == MarkerStart
    ensures Block[|Block| - 1 - |MarkerEnd|..|Block| - 1] == MarkerEnd
    ensures Block[UrlOffset..UrlOffset + |ScriptUrl|] == ScriptUrl
    ensures MatchesAt(Block, MarkerStart, 1)
    ensures MatchesAt(Block, ScriptUrl, UrlOffset)
  {
    var head := "\n" + MarkerStart + "\n<script src=\"";
    var tail := "\" defer></script>\n" + MarkerEnd + "\n";
    assert Block == head + ScriptUrl + tail;
    assert |head| == UrlOffset;
    SliceOfConcat(head, ScriptUrl, tail);
    SliceOfConcat("\n", MarkerStart, Block[1 + |MarkerStart|..]);
    assert Block == ("\n" + MarkerStart + "\n<script src=\"" + ScriptUrl + "\" defer></script>\n") + MarkerEnd + "\n";
    SliceOfConcat("\n" + MarkerStart + "\n<script src=\"" + ScriptUrl + "\" defer></script>\n", MarkerEnd, "\n");
    ExactMatch(Block, MarkerStart, 1);
    ExactMatch(Block, ScriptUrl, UrlOffset);
  }

  /** Cutting `a + x + b` at `|a|` and `|a| + |x|` gives back its three parts. */
  lemma SliceOfConcat(a: string, x: string, b: string)
    ensures (a + x + b)[|a|..|a| + |x|] == x
    ensures (a + x + b)[..|a|] == a
    ensures (a + x + b)[|a| + |x|..] == b
    ensures (a + x + b)[..|a|] + (a + x + b)[|a| + |x|..] == a + b
  {
    var w := a + x + b;
    assert w[|a|..|a| + |x|] == x;
    assert w[..|a|] == a;
    assert w[|a| + |x|..] == b;
  }

  /** A verbatim occurrence is in particular a case-insensitive one. */
  lemma ExactMatch(s: string, pat: string, i: nat)
    requires i + |pat| <= |s| && s[i..i + |pat|] == pat
    ensures MatchesAt(s, pat, i)
  {
  }

  /** The block on its own is recognised as a previous patch, which is what
      makes the check on later runs work. */
  lemma BlockIsSelfDetecting()
    ensures IsPatched(Block)
  {
    BlockLayout();
    ContainsCIMeansOccurs(Block, MarkerStart);
    ContainsCIMeansOccurs(Block, ScriptUrl);
  }

  /** Content that already carries the marker and the URL is left as it is:
      the second postcondition of `Patch`, restated with `IsPatched` spelled
      out as the two case-insensitive `Contains` calls. */
  lemma AlreadyPatchedIsUnchanged(html: string)
    requires ContainsCI(html, MarkerStart) && ContainsCI(html, ScriptUrl)
    ensures Patch(html) == html
  {
  }

  /** The first `<head>` wins, whatever else the content holds. */
  lemma HeadAnchorWins(html: string, p: nat)
    requires !IsPatched(html)
    requires MatchesAt(html, HeadOpen, p)
    requires forall k :: 0 <= k < p ==> !MatchesAt(html, HeadOpen, k)
    ensures p + |HeadOpen| <= |html|
    ensures Patch(html) == html[..p + |HeadOpen|] + Block + html[p + |HeadOpen|..]
  {
    IndexOfCIFindsFirst(html, HeadOpen, p);
    assert InsertionPoint(html) == p + |HeadOpen|;
    PatchSplicesBlock(html);
  }

  /** Without a `<head>`, the block goes right before the first `</body>`. */
  lemma BodyCloseFallback(html: string, q: nat)
    requires !IsPatched(html)
    requires forall k :: 0 <= k <= |html| ==> !MatchesAt(html, HeadOpen, k)
    requires MatchesAt(html, BodyClose, q)
    requires forall k :: 0 <= k < q ==> !MatchesAt(html, BodyClose, k)
    ensures Patch(html) == html[..q] + Block + html[q..]
  {
    assert IndexOfCI(html, HeadOpen) == -1;
    IndexOfCIFindsFirst(html, BodyClose, q);
    assert InsertionPoint(html) == q;
    PatchSplicesBlock(html);
  }

  /** Without either anchor the block is appended. */
  lemma AppendFallback(html: string)
    requires !IsPatched(html)
    requires forall k :: 0 <= k <= |html| ==> !MatchesAt(html, HeadOpen, k)
    requires forall k :: 0 <= k <= |html| ==> !MatchesAt(html, BodyClose, k)
    ensures Patch(html) == html + Block
  {
    assert html[..|html|] == html;
  }

  /** A patch inserts the block in one place and nothing else: cutting the
      block back out of the result gives the original content. */
  lemma PatchPreservesOriginal(html: string)
    requires !IsPatched(html)
    ensures var r, p := Patch(html), InsertionPoint(html);
      && p + |Block| <= |r|
      && r[p..p + |Block|] == Block
      && r[..p] + r[p + |Block|..] == html
  {
    PatchSplicesBlock(html);
    CutSplice(html, InsertionPoint(html), Block);
  }

  /** Splicing `x` into `s` at `p` and cutting it out again gives `s` back. */
  lemma CutSplice(s: string, p: nat, x: string)
    requires p <= |s|
    ensures var r := s[..p] + x + s[p..];
      && r[p..p + |x|] == x
      && r[..p] + r[p + |x|..] == s
  {
    SliceOfConcat(s[..p], x, s[p..]);
    assert s[..p] + s[p..] == s;
  }

  /** An empty file becomes exactly the block. */
  lemma EmptyFileGetsBlock()
    ensures Patch("") == Block
  {
    var empty: string := [];
    assert !MatchesAt(empty, MarkerStart, 0);
    assert !IsPatched(empty);
    assert InsertionPoint(empty) == 0;
    PatchSplicesBlock(empty);
    assert empty[..0] + Block + empty[0..] == Block;
  }

  /** Patching twice is the same as patching once. */
  lemma PatchIdempotent(html: string)
    ensures Patch(Patch(html)) == Patch(html)
  {
  }

  /** The "already patched" check does not depend on letter case. */
  lemma DetectionIgnoresCase(h1: string, h2: string)
    requires EqualCI(h1, h2)
    ensures IsPatched(h1) <==> IsPatched(h2)
  {
    ContainsCIIgnoresCase(h1, h2, MarkerStart);
    ContainsCIIgnoresCase(h1, h2, ScriptUrl);
  }
}
