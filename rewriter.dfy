/** Writing scheduling state back into a document (`save_repetition_data`,
    without the file I/O): the updates for one file are collected from its
    cards, every old `%@rep:<id>:` line of an updated id is deleted, and a
    fresh line is inserted after the block of that id.

    The two regular-expression substitutions are hand scanners, as in the
    parser: `re.sub` tries a match at each offset from the left, and after a
    match resumes where the match ended. */
module Rewriter {
  import opened Text
  import opened Dates
  import opened Schedule
  import opened Codec
  import opened Cards
  import Scan

  /** What the removal pattern for `id` starts with: `%@rep:<id>:` (the id
      is escaped, so it matches literally). */
  function MetaPrefix(id: string): (p: string)
    ensures |p| == |id| + 7 && p[0] == '%'
    ensures '\n' !in id ==> '\n' !in p
  {
    Scan.RepPrefix + id + ":"
  }

  /** The header the card pattern for `id` starts with: `\begin{flashcard}{<id>}`. */
  function Header(id: string): (h: string)
    ensures |h| == |id| + 19 && h[0] == '\\'
    ensures '\n' !in id ==> '\n' !in h
  {
    Scan.BeginPrefix + id + "}"
  }

  /** The comment `add_rep_comment` puts after a block: a newline, then
      `%@rep:<id>:<enc>`. */
  function MetaLine(id: string, enc: string): string
  {
    "\n" + MetaPrefix(id) + enc
  }

  // ---------------------------------------------------------------------
  // Removal: re.sub(r'%@rep:<id>:[^\n]*\n?', '', t)
  // ---------------------------------------------------------------------

  /** End of the removal match that starts at `i` with the prefix `p`: the
      rest of the line and its newline, when there is one. */
  function SpanEnd(t: string, i: nat, p: string): (e: nat)
    requires StartsAt(t, i, p)
    ensures i + |p| <= e <= |t|
  {
    var l := LineEnd(t, i + |p|);
    if l < |t| then l + 1 else l
  }

  /** The removal scan from `i`, for a line prefix `p`. */
  function RemoveFrom(t: string, i: nat, p: string): string
    requires i <= |t| && p != []
    decreases |t| - i
  {
    if i == |t| then []
    else if StartsAt(t, i, p) then RemoveFrom(t, SpanEnd(t, i, p), p)
    else [t[i]] + RemoveFrom(t, i + 1, p)
  }

  /** The text with every `%@rep:<id>:` line deleted. */
  function Remove(t: string, id: string): string
  {
    RemoveFrom(t, 0, MetaPrefix(id))
  }

  /** The offsets, from `i` on, whose characters the removal keeps. */
  function KeptFrom(t: string, i: nat, p: string): (ks: seq<nat>)
    requires i <= |t| && p != []
    decreases |t| - i
    ensures forall k :: 0 <= k < |ks| ==> i <= ks[k] < |t|
  {
    if i == |t| then []
    else if StartsAt(t, i, p) then KeptFrom(t, SpanEnd(t, i, p), p)
    else [i] + KeptFrom(t, i + 1, p)
  }

  /** The characters of `t` at the offsets `ks`, in that order. */
  function Project(t: string, ks: seq<nat>): (r: string)
    requires forall k :: 0 <= k < |ks| ==> ks[k] < |t|
    ensures |r| == |ks| && forall k :: 0 <= k < |ks| ==> r[k] == t[ks[k]]
  {
    seq(|ks|, k requires 0 <= k < |ks| => t[ks[k]])
  }

  /** The removal keeps some characters of the text, in their order. */
  lemma {:induction false} RemoveKeeps(t: string, i: nat, p: string)
    requires i <= |t| && p != []
    decreases |t| - i
    ensures RemoveFrom(t, i, p) == Project(t, KeptFrom(t, i, p))
  {
    if i < |t| {
      if StartsAt(t, i, p) {
        RemoveKeeps(t, SpanEnd(t, i, p), p);
      } else {
        RemoveKeeps(t, i + 1, p);
        ProjectCons(t, i, KeptFrom(t, i + 1, p));
      }
    } else {
      assert KeptFrom(t, i, p) == [];
    }
  }

  lemma ProjectCons(t: string, i: nat, ks: seq<nat>)
    requires i < |t| && forall k :: 0 <= k < |ks| ==> ks[k] < |t|
    ensures Project(t, [i] + ks) == [t[i]] + Project(t, ks)
  {
  }

  /** The kept offsets increase, none of them starts an old line. */
  lemma {:induction false} KeptOrdered(t: string, i: nat, p: string)
    requires i <= |t| && p != []
    decreases |t| - i
    ensures forall a, b :: 0 <= a < b < |KeptFrom(t, i, p)| ==> KeptFrom(t, i, p)[a] < KeptFrom(t, i, p)[b]
    ensures forall k :: 0 <= k < |KeptFrom(t, i, p)| ==> !StartsAt(t, KeptFrom(t, i, p)[k], p)
  {
    if i < |t| {
      if StartsAt(t, i, p) {
        KeptOrdered(t, SpanEnd(t, i, p), p);
      } else {
        KeptOrdered(t, i + 1, p);
        var ks := KeptFrom(t, i + 1, p);
        assert KeptFrom(t, i, p) == [i] + ks;
      }
    } else {
      assert KeptFrom(t, i, p) == [];
    }
  }

  /** Every dropped character lies in a matched line: from the prefix to the
      end of its line, newline included. */
  lemma {:induction false} DroppedInLine(t: string, i: nat, p: string)
    requires i <= |t| && p != []
    decreases |t| - i
    ensures forall j :: i <= j < |t| && j !in KeptFrom(t, i, p) ==>
      exists s :: i <= s <= j && StartsAt(t, s, p) && j < SpanEnd(t, s, p)
  {
    if i < |t| {
      if StartsAt(t, i, p) {
        var e := SpanEnd(t, i, p);
        DroppedInLine(t, e, p);
        assert KeptFrom(t, i, p) == KeptFrom(t, e, p);
        forall j | i <= j < |t| && j !in KeptFrom(t, i, p)
          ensures exists s :: i <= s <= j && StartsAt(t, s, p) && j < SpanEnd(t, s, p)
        {
          if j < e {
            assert StartsAt(t, i, p) && j < SpanEnd(t, i, p);
          } else {
            assert j !in KeptFrom(t, e, p);
            var s :| e <= s <= j && StartsAt(t, s, p) && j < SpanEnd(t, s, p);
            assert i <= s;
          }
        }
      } else {
        DroppedInLine(t, i + 1, p);
        var ks := KeptFrom(t, i + 1, p);
        assert KeptFrom(t, i, p) == [i] + ks;
        forall j | i <= j < |t| && j !in KeptFrom(t, i, p)
          ensures exists s :: i <= s <= j && StartsAt(t, s, p) && j < SpanEnd(t, s, p)
        {
          assert j != i && j !in ks;
        }
      }
    }
  }

  lemma ConsSlice(t: string, i: nat, m: nat, x: string)
    requires i < m <= |t|
    ensures [t[i]] + (t[i + 1..m] + x) == t[i..m] + x
  {
    assert t[i..m] == [t[i]] + t[i + 1..m];
  }

  /** A stretch with no occurrence of the prefix in it is copied unchanged. */
  lemma {:induction false} RemoveSkip(t: string, i: nat, m: nat, p: string)
    requires i <= m <= |t| && p != []
    requires forall j :: i <= j < m ==> !StartsAt(t, j, p)
    decreases m - i
    ensures RemoveFrom(t, i, p) == t[i..m] + RemoveFrom(t, m, p)
  {
    if i < m {
      assert !StartsAt(t, i, p);
      RemoveSkip(t, i + 1, m, p);
      calc {
        RemoveFrom(t, i, p);
        [t[i]] + RemoveFrom(t, i + 1, p);
        [t[i]] + (t[i + 1..m] + RemoveFrom(t, m, p));
        { ConsSlice(t, i, m, RemoveFrom(t, m, p)); }
        t[i..m] + RemoveFrom(t, m, p);
      }
    } else {
      assert t[i..m] == [];
    }
  }

  predicate Absent(t: string, p: string)
  {
    forall j :: 0 <= j < |t| ==> !StartsAt(t, j, p)
  }

  /** A text with no `%@rep:<id>:` line is left as it is. */
  lemma RemoveNoMatch(t: string, id: string)
    requires Absent(t, MetaPrefix(id))
    ensures Remove(t, id) == t
  {
    RemoveSkip(t, 0, |t|, MetaPrefix(id));
  }

  /** After a prefix, a rest with no occurrence is copied. */
  lemma RemoveTail(x: string, y: string, p: string)
    requires Absent(y, p) && p != []
    ensures RemoveFrom(x + y, |x|, p) == y
  {
    var u := x + y;
    AbsentRight(x, y, p);
    RemoveSkip(u, |x|, |u|, p);
    calc {
      RemoveFrom(u, |x|, p);
      u[|x|..|u|] + RemoveFrom(u, |u|, p);
      u[|x|..|u|] + [];
      { assert u[|x|..|u|] == y; }
      y;
    }
  }

  /** No occurrence in `y` means none after `x` in `x + y`. */
  lemma AbsentRight(x: string, y: string, p: string)
    requires Absent(y, p)
    ensures forall j :: |x| <= j < |x + y| ==> !StartsAt(x + y, j, p)
  {
    forall j | |x| <= j < |x + y|
      ensures !StartsAt(x + y, j, p)
    {
      StartsAtRight(x, y, j - |x|, p);
    }
  }

  // ---------------------------------------------------------------------
  // Insertion: re.sub(r'(\\begin\{flashcard\}\{<id>\}.*?\\end\{flashcard\})', ..., t, flags=re.DOTALL)
  // ---------------------------------------------------------------------

  /** The card pattern with header `h` at `i`: the header, then lazily
      everything up to the first `\end{flashcard}` after it; the offset just
      past that marker. */
  function CardMatchAt(t: string, i: nat, h: string): (m: Option<nat>)
    ensures m.Some? ==> StartsAt(t, i, h) && i + |h| + |Scan.EndMarker| <= m.value <= |t|
  {
    if !StartsAt(t, i, h) then None
    else match FindFrom(t, i + |h|, Scan.EndMarker)
      case None => None
      case Some(k) => Some(k + |Scan.EndMarker|)
  }

  /** The card match is the header and the first end marker after it; there
      is none when the header is missing or no end marker follows it. */
  lemma CardMatchFirst(t: string, i: nat, h: string)
    ensures CardMatchAt(t, i, h).Some? <==> StartsAt(t, i, h) && exists k :: i + |h| <= k && StartsAt(t, k, Scan.EndMarker)
    ensures CardMatchAt(t, i, h).Some? ==>
      var e := CardMatchAt(t, i, h).value;
      StartsAt(t, e - |Scan.EndMarker|, Scan.EndMarker)
      && forall k :: i + |h| <= k < e - |Scan.EndMarker| ==> !StartsAt(t, k, Scan.EndMarker)
  {
  }

  /** What is put after a block that ends at `e`: the comment line; the
      corrected rewrite (`terminate`) also ends that line with a newline
      unless one already follows the block. */
  function Appended(t: string, e: nat, line: string, terminate: bool): string
  {
    if terminate && !(e < |t| && t[e] == '\n') then line + "\n" else line
  }

  /** The insertion scan from `i`, for header `h` and comment `line`. */
  function InsertFrom(t: string, i: nat, h: string, line: string, terminate: bool): string
    requires i <= |t|
    decreases |t| - i
  {
    if i == |t| then []
    else if !StartsAt(t, i, h) then [t[i]] + InsertFrom(t, i + 1, h, line, terminate)
    else match CardMatchAt(t, i, h)
      case Some(e) => t[i..e] + Appended(t, e, line, terminate) + InsertFrom(t, e, h, line, terminate)
      case None => [t[i]] + InsertFrom(t, i + 1, h, line, terminate)
  }

  /** The insertion as `save_repetition_data` writes it. */
  function InsertAsWritten(t: string, id: string, enc: string): string
  {
    InsertFrom(t, 0, Header(id), MetaLine(id, enc), false)
  }

  /** The corrected insertion: the inserted comment always ends its line. */
  function InsertMeta(t: string, id: string, enc: string): string
  {
    InsertFrom(t, 0, Header(id), MetaLine(id, enc), true)
  }

  /** A stretch with no header in it is copied unchanged. */
  lemma {:induction false} InsertSkip(t: string, i: nat, m: nat, h: string, line: string, terminate: bool)
    requires i <= m <= |t|
    requires forall j :: i <= j < m ==> !StartsAt(t, j, h)
    decreases m - i
    ensures InsertFrom(t, i, h, line, terminate) == t[i..m] + InsertFrom(t, m, h, line, terminate)
  {
    if i < m {
      assert !StartsAt(t, i, h);
      InsertSkip(t, i + 1, m, h, line, terminate);
      calc {
        InsertFrom(t, i, h, line, terminate);
        [t[i]] + InsertFrom(t, i + 1, h, line, terminate);
        [t[i]] + (t[i + 1..m] + InsertFrom(t, m, h, line, terminate));
        { ConsSlice(t, i, m, InsertFrom(t, m, h, line, terminate)); }
        t[i..m] + InsertFrom(t, m, h, line, terminate);
      }
    } else {
      assert t[i..m] == [];
    }
  }

  /** An id with no block in the text gets no line: the text is unchanged. */
  lemma InsertNoBlock(t: string, id: string, enc: string, terminate: bool)
    requires Absent(t, Header(id))
    ensures InsertFrom(t, 0, Header(id), MetaLine(id, enc), terminate) == t
  {
    InsertSkip(t, 0, |t|, Header(id), MetaLine(id, enc), terminate);
  }

  lemma InsertTail(x: string, y: string, h: string, line: string, terminate: bool)
    requires Absent(y, h)
    ensures InsertFrom(x + y, |x|, h, line, terminate) == y
  {
    var u := x + y;
    AbsentRight(x, y, h);
    InsertSkip(u, |x|, |u|, h, line, terminate);
    calc {
      InsertFrom(u, |x|, h, line, terminate);
      u[|x|..|u|] + InsertFrom(u, |u|, h, line, terminate);
      u[|x|..|u|] + [];
      { assert u[|x|..|u|] == y; }
      y;
    }
  }

  /** At a block the scan copies it, appends the comment and goes on after it. */
  lemma InsertAtBlock(t: string, i: nat, e: nat, h: string, line: string, terminate: bool)
    requires i <= |t| && CardMatchAt(t, i, h) == Some(e)
    ensures InsertFrom(t, i, h, line, terminate)
      == t[i..e] + Appended(t, e, line, terminate) + InsertFrom(t, e, h, line, terminate)
  {
    assert i < |t| && StartsAt(t, i, h);
  }

  /** A text holding one block, from `i` to `e`, and no other header: the
      comment is inserted right after the block, everything else staying in
      place. */
  lemma InsertOne(t: string, i: nat, e: nat, h: string, line: string, terminate: bool)
    requires i <= |t| && CardMatchAt(t, i, h) == Some(e)
    requires forall j :: 0 <= j < |t| && j != i ==> !StartsAt(t, j, h)
    ensures InsertFrom(t, 0, h, line, terminate) == t[..e] + Appended(t, e, line, terminate) + t[e..]
  {
    var a := Appended(t, e, line, terminate);
    InsertSkip(t, 0, i, h, line, terminate);
    InsertAtBlock(t, i, e, h, line, terminate);
    InsertSkip(t, e, |t|, h, line, terminate);
    assert InsertFrom(t, |t|, h, line, terminate) == [];
    assert t[e..|t|] == t[e..];
    SliceJoin(t, i, e, a);
  }

  lemma SliceJoin(t: string, i: nat, e: nat, a: string)
    requires i <= e <= |t|
    ensures t[0..i] + (t[i..e] + a + (t[e..|t|] + [])) == t[..e] + a + t[e..]
  {
    assert t[0..i] + t[i..e] == t[..e];
    assert t[e..|t|] + [] == t[e..];
  }

  // ---------------------------------------------------------------------
  // Occurrences in a concatenation
  // ---------------------------------------------------------------------

  lemma StartsAtLeft(x: string, y: string, j: int, p: string)
    requires j + |p| <= |x|
    ensures StartsAt(x + y, j, p) <==> StartsAt(x, j, p)
  {
    if 0 <= j {
      assert (x + y)[j..j + |p|] == x[j..j + |p|];
    }
  }

  lemma StartsAtRight(x: string, y: string, j: int, p: string)
    requires 0 <= j
    ensures StartsAt(x + y, |x| + j, p) <==> StartsAt(y, j, p)
  {
    if j + |p| <= |y| {
      assert (x + y)[|x| + j..|x| + j + |p|] == y[j..j + |p|];
    }
  }

  /** An occurrence across the seam holds the right part's first character. */
  lemma StartsAtSeam(x: string, y: string, j: int, p: string)
    requires 0 <= j < |x| < j + |p| && y != [] && y[0] !in p
    ensures !StartsAt(x + y, j, p)
  {
    if j + |p| <= |x + y| {
      assert (x + y)[j..j + |p|][|x| - j] == y[0];
    }
  }

  /** Texts agreeing on their first `n` characters agree on the occurrences
      that fit in them. */
  lemma StartsAtAgree(s: string, u: string, n: nat, k: int, p: string)
    requires n <= |s| && n <= |u| && s[..n] == u[..n] && k + |p| <= n
    ensures StartsAt(s, k, p) <==> StartsAt(u, k, p)
  {
    if 0 <= k {
      assert s[k..k + |p|] == s[..n][k..k + |p|];
      assert u[k..k + |p|] == u[..n][k..k + |p|];
    }
  }

  /** The card match at `i` only depends on the text up to its end. */
  lemma CardMatchAgree(s: string, u: string, i: nat, e: nat, h: string)
    requires CardMatchAt(s, i, h) == Some(e) && e <= |u| && s[..e] == u[..e]
    ensures CardMatchAt(u, i, h) == Some(e)
  {
    var m := Scan.EndMarker;
    CardMatchFirst(s, i, h);
    StartsAtAgree(s, u, e, i, h);
    StartsAtAgree(s, u, e, e - |m|, m);
    forall k | i + |h| <= k < e - |m|
      ensures !StartsAt(u, k, m)
    {
      StartsAtAgree(s, u, e, k, m);
    }
    var f := FindFrom(u, i + |h|, m);
    assert f.Some? && f.value == e - |m|;
  }

  // ---------------------------------------------------------------------
  // Collecting the updates
  // ---------------------------------------------------------------------

  /** The ids of an update list, in order. */
  function Ids(ups: seq<(string, string)>): (ids: seq<string>)
    ensures |ids| == |ups| && forall k :: 0 <= k < |ups| ==> ids[k] == ups[k].0
  {
    seq(|ups|, k requires 0 <= k < |ups| => ups[k].0)
  }

  /** `rep_updates[id] = enc` on a dict kept as its insertion-ordered items:
      a known id keeps its place and takes the new value, a new one is
      appended; every other entry stays as it was. */
  function Upsert(ups: seq<(string, string)>, id: string, enc: string): (r: seq<(string, string)>)
    ensures |r| == if id in Ids(ups) then |ups| else |ups| + 1
    ensures forall a :: 0 <= a < |r| ==> r[a].0 == if a < |ups| then ups[a].0 else id
    ensures forall a :: 0 <= a < |r| && r[a].0 != id ==> a < |ups| && r[a] == ups[a]
    ensures forall a :: 0 <= a < |r| && r[a].0 == id ==> r[a].1 == enc
  {
    if id in Ids(ups) then seq(|ups|, k requires 0 <= k < |ups| => if ups[k].0 == id then (id, enc) else ups[k])
    else ups + [(id, enc)]
  }

  /** Every card of the file can be encoded (its last review lies in the
      years 1..9999, as every Python `date` does). */
  predicate Encodable(cards: seq<FlashCard>, filepath: string)
    reads set k | 0 <= k < |cards| :: cards[k].rep
  {
    forall k :: 0 <= k < |cards| && cards[k].sourceFile == filepath ==>
      (cards[k].rep.lastReview.Some? ==> InRange(cards[k].rep.lastReview.value))
  }

  /** The id and encoded record of each of the first `n` cards that was
      read from `filepath`, in order. */
  function FileEntries(cards: seq<FlashCard>, filepath: string, n: nat): (es: seq<(string, string)>)
    reads set k | 0 <= k < |cards| :: cards[k].rep
    requires n <= |cards| && Encodable(cards, filepath)
  {
    if n == 0 then []
    else
      var c := cards[n - 1];
      FileEntries(cards, filepath, n - 1)
      + if c.sourceFile == filepath then [(c.id, c.rep.ToString())] else []
  }

  /** Assigning the entries one by one into a dict, as the loop over the
      cards fills `rep_updates`. */
  function Collect(es: seq<(string, string)>): seq<(string, string)>
  {
    if es == [] then [] else Upsert(Collect(es[..|es| - 1]), es[|es| - 1].0, es[|es| - 1].1)
  }

  /** `rep_updates` for the file `filepath`. */
  function UpdatesOf(cards: seq<FlashCard>, filepath: string): seq<(string, string)>
    reads set k | 0 <= k < |cards| :: cards[k].rep
    requires Encodable(cards, filepath)
  {
    Collect(FileEntries(cards, filepath, |cards|))
  }

  predicate Distinct(ids: seq<string>)
  {
    forall a, b :: 0 <= a < b < |ids| ==> ids[a] != ids[b]
  }

  /** `es[k]` is the last entry with its id. */
  predicate LastOf(es: seq<(string, string)>, k: int)
  {
    0 <= k < |es| && forall l :: k < l < |es| ==> es[l].0 != es[k].0
  }

  /** The collected dict holds the ids of the entries... */
  lemma {:induction false} CollectKeys(es: seq<(string, string)>)
    ensures forall id :: id in Ids(Collect(es)) <==> id in Ids(es)
  {
    if es != [] {
      var n := |es| - 1;
      var init, e := es[..n], es[n];
      CollectKeys(init);
      var ups := Collect(init);
      var r := Upsert(ups, e.0, e.1);
      assert Collect(es) == r;
      assert Ids(es) == Ids(init) + [e.0];
      forall id
        ensures id in Ids(r) <==> id in Ids(es)
      {
        if id != e.0 {
          if id in Ids(r) {
            var a :| 0 <= a < |r| && r[a].0 == id;
            assert ups[a].0 == id;
          }
          if id in Ids(ups) {
            var a :| 0 <= a < |ups| && ups[a].0 == id;
            assert r[a].0 == id;
          }
        } else if e.0 in Ids(ups) {
          var a :| 0 <= a < |ups| && ups[a].0 == e.0;
          assert r[a].0 == e.0;
        } else {
          assert r[|ups|].0 == e.0;
        }
      }
    } else {
      assert Collect(es) == [];
    }
  }

  /** ... each exactly once... */
  lemma {:induction false} CollectDistinct(es: seq<(string, string)>)
    ensures Distinct(Ids(Collect(es)))
  {
    if es != [] {
      var n := |es| - 1;
      var init, e := es[..n], es[n];
      CollectDistinct(init);
      var ups := Collect(init);
      var r := Upsert(ups, e.0, e.1);
      assert Collect(es) == r;
      forall a, b | 0 <= a < b < |r|
        ensures r[a].0 != r[b].0
      {
        if b >= |ups| {
          assert r[b].0 == e.0 && ups[a].0 == r[a].0;
          assert ups[a].0 in Ids(ups);
        }
      }
    } else {
      assert Collect(es) == [];
    }
  }

  /** `x` appears among the entries before any `y` does. */
  predicate FirstBefore(es: seq<(string, string)>, x: string, y: string)
  {
    exists k :: 0 <= k < |es| && es[k].0 == x && forall l :: 0 <= l <= k ==> es[l].0 != y
  }

  /** ... in the order of their first appearance... */
  lemma {:induction false} CollectOrder(es: seq<(string, string)>)
    ensures forall a, b :: 0 <= a < b < |Collect(es)| ==> FirstBefore(es, Collect(es)[a].0, Collect(es)[b].0)
  {
    if es != [] {
      var n := |es| - 1;
      var init, e := es[..n], es[n];
      CollectOrder(init);
      CollectKeys(init);
      var ups := Collect(init);
      var r := Upsert(ups, e.0, e.1);
      assert Collect(es) == r;
      forall a, b | 0 <= a < b < |r|
        ensures FirstBefore(es, r[a].0, r[b].0)
      {
        assert ups[a].0 == r[a].0;
        if b < |ups| {
          assert ups[b].0 == r[b].0;
          assert FirstBefore(init, ups[a].0, ups[b].0);
          var k :| 0 <= k < |init| && init[k].0 == ups[a].0 && forall l :: 0 <= l <= k ==> init[l].0 != ups[b].0;
          assert es[k] == init[k];
          assert forall l :: 0 <= l <= k ==> es[l] == init[l];
        } else {
          assert r[b].0 == e.0 && e.0 !in Ids(ups);
          assert ups[a].0 in Ids(ups);
          assert ups[a].0 in Ids(init);
          var k :| 0 <= k < |init| && Ids(init)[k] == ups[a].0;
          assert forall l :: 0 <= l < n ==> es[l] == init[l] && Ids(init)[l] in Ids(init);
          assert es[k].0 == ups[a].0;
        }
      }
    } else {
      assert Collect(es) == [];
    }
  }

  /** ... and with each id, the value of the last entry of that id. */
  lemma {:induction false} CollectValues(es: seq<(string, string)>)
    ensures forall a :: 0 <= a < |Collect(es)| ==>
      exists k :: LastOf(es, k) && es[k] == Collect(es)[a]
  {
    if es != [] {
      var n := |es| - 1;
      var init, e := es[..n], es[n];
      CollectValues(init);
      var ups := Collect(init);
      var r := Upsert(ups, e.0, e.1);
      assert Collect(es) == r;
      forall a | 0 <= a < |r|
        ensures exists k :: LastOf(es, k) && es[k] == r[a]
      {
        if r[a].0 == e.0 {
          assert LastOf(es, n) && es[n] == r[a];
        } else {
          assert a < |ups| && r[a] == ups[a];
          var k :| LastOf(init, k) && init[k] == ups[a];
          assert es[k] == init[k];
          assert LastOf(es, k);
        }
      }
    } else {
      assert Collect(es) == [];
    }
  }

  /** One of the first `n` cards was read from `filepath` and has `id`. */
  predicate HasCard(cards: seq<FlashCard>, filepath: string, id: string, n: nat)
    requires n <= |cards|
  {
    exists k :: 0 <= k < n && cards[k].sourceFile == filepath && cards[k].id == id
  }

  /** The ids of the first `n` cards that were read from `filepath`. */
  function FileIds(cards: seq<FlashCard>, filepath: string, n: nat): seq<string>
    requires n <= |cards|
  {
    if n == 0 then []
    else FileIds(cards, filepath, n - 1) + if cards[n - 1].sourceFile == filepath then [cards[n - 1].id] else []
  }

  /** The ids in a file's entries are those of its cards. */
  lemma {:induction false} EntriesIds(cards: seq<FlashCard>, filepath: string, n: nat)
    requires n <= |cards| && Encodable(cards, filepath)
    ensures Ids(FileEntries(cards, filepath, n)) == FileIds(cards, filepath, n)
  {
    if n > 0 {
      EntriesIds(cards, filepath, n - 1);
      IdsEntriesNext(cards, filepath, n - 1);
    } else {
      assert FileEntries(cards, filepath, n) == [];
    }
  }

  lemma {:induction false} FileIdsSpec(cards: seq<FlashCard>, filepath: string, n: nat)
    requires n <= |cards|
    ensures forall id :: id in FileIds(cards, filepath, n) <==> HasCard(cards, filepath, id, n)
  {
    if n > 0 {
      FileIdsSpec(cards, filepath, n - 1);
      forall id
        ensures id in FileIds(cards, filepath, n) <==> HasCard(cards, filepath, id, n)
      {
        HasCardNext(cards, filepath, id, n - 1);
      }
    } else {
      assert FileIds(cards, filepath, n) == [];
    }
  }

  /** The entries of a file: one per card read from it, with that card's id. */
  lemma FileEntriesSpec(cards: seq<FlashCard>, filepath: string, n: nat)
    requires n <= |cards| && Encodable(cards, filepath)
    ensures forall id :: id in Ids(FileEntries(cards, filepath, n)) <==> HasCard(cards, filepath, id, n)
  {
    EntriesIds(cards, filepath, n);
    FileIdsSpec(cards, filepath, n);
  }

  lemma HasCardNext(cards: seq<FlashCard>, filepath: string, id: string, n: nat)
    requires n < |cards|
    ensures HasCard(cards, filepath, id, n + 1)
      <==> HasCard(cards, filepath, id, n) || (cards[n].sourceFile == filepath && cards[n].id == id)
  {
    if HasCard(cards, filepath, id, n + 1) && !HasCard(cards, filepath, id, n) {
      var k :| 0 <= k < n + 1 && cards[k].sourceFile == filepath && cards[k].id == id;
      assert k == n;
    }
  }

  lemma IdsEntriesNext(cards: seq<FlashCard>, filepath: string, n: nat)
    requires n < |cards| && Encodable(cards, filepath)
    ensures Ids(FileEntries(cards, filepath, n + 1))
      == Ids(FileEntries(cards, filepath, n)) + if cards[n].sourceFile == filepath then [cards[n].id] else []
  {
    FileEntriesNext(cards, filepath, n);
    var tail: seq<(string, string)> := if cards[n].sourceFile == filepath then [(cards[n].id, cards[n].rep.ToString())] else [];
    IdsAppend(FileEntries(cards, filepath, n), tail);
    assert Ids(tail) == if cards[n].sourceFile == filepath then [cards[n].id] else [];
  }

  lemma IdsAppend(x: seq<(string, string)>, y: seq<(string, string)>)
    ensures Ids(x + y) == Ids(x) + Ids(y)
  {
  }

  // ---------------------------------------------------------------------
  // The whole rewrite
  // ---------------------------------------------------------------------

  /** The first loop: the old lines of each id deleted in turn. */
  function RemoveAll(t: string, ids: seq<string>): string
    decreases |ids|
  {
    if ids == [] then t else Remove(RemoveAll(t, ids[..|ids| - 1]), ids[|ids| - 1])
  }

  /** The second loop: a comment inserted after the blocks of each id in turn. */
  function InsertAll(t: string, ups: seq<(string, string)>, terminate: bool): string
    decreases |ups|
  {
    if ups == [] then t
    else
      var u := ups[|ups| - 1];
      InsertFrom(InsertAll(t, ups[..|ups| - 1], terminate), 0, Header(u.0), MetaLine(u.0, u.1), terminate)
  }

  /** `save_repetition_data`'s rewrite of the file text, as written. */
  function RewriteAsWritten(t: string, ups: seq<(string, string)>): string
  {
    InsertAll(RemoveAll(t, Ids(ups)), ups, false)
  }

  /** The corrected rewrite, whose inserted comments end their lines. */
  function Rewrite(t: string, ups: seq<(string, string)>): string
  {
    InsertAll(RemoveAll(t, Ids(ups)), ups, true)
  }

  /** With one update the rewrite is one removal and one insertion. */
  lemma RewriteSingle(t: string, id: string, enc: string)
    ensures Rewrite(t, [(id, enc)]) == InsertMeta(Remove(t, id), id, enc)
    ensures RewriteAsWritten(t, [(id, enc)]) == InsertAsWritten(Remove(t, id), id, enc)
  {
    var ups := [(id, enc)];
    assert Ids(ups) == [id];
    assert [id][..0] == [] && ups[..0] == [];
    assert RemoveAll(t, [id]) == Remove(RemoveAll(t, []), id);
    var r := Remove(t, id);
    assert InsertAll(r, ups, true) == InsertFrom(InsertAll(r, [], true), 0, Header(id), MetaLine(id, enc), true);
    assert InsertAll(r, ups, false) == InsertFrom(InsertAll(r, [], false), 0, Header(id), MetaLine(id, enc), false);
  }

  /** The lines of `LineEnd`: the first newline at or after `i`. */
  lemma LineEndAt(s: string, i: nat, l: nat)
    requires i <= l <= |s| && (l < |s| ==> s[l] == '\n')
    requires forall k :: i <= k < l ==> s[k] != '\n'
    ensures LineEnd(s, i) == l
  {
  }

  /** No occurrence of a newline-free `p` starts in a clean `a` or at a
      newline right after it. */
  lemma CleanBeforeNewline(a: string, r: string, p: string)
    requires Absent(a, p) && p != [] && r != [] && r[0] == '\n' && '\n' !in p
    ensures forall j :: 0 <= j <= |a| ==> !StartsAt(a + r, j, p)
  {
    forall j | 0 <= j <= |a|
      ensures !StartsAt(a + r, j, p)
    {
      if j + |p| <= |a| {
        StartsAtLeft(a, r, j, p);
      } else if j < |a| {
        StartsAtSeam(a, r, j, p);
      } else {
        assert (a + r)[j] == '\n' && p[0] in p;
      }
    }
  }

  /** A comment `p + enc` at `|x|` spans to the newline that follows it, or to
      the end of the text when no newline follows. */
  lemma CommentSpan(x: string, p: string, enc: string, rest: string)
    requires '\n' !in enc
    ensures StartsAt(x + p + enc + rest, |x|, p)
    ensures rest != [] && rest[0] == '\n' ==> SpanEnd(x + p + enc + rest, |x|, p) == |x| + |p| + |enc| + 1
    ensures '\n' !in rest ==> SpanEnd(x + p + enc + rest, |x|, p) == |x + p + enc + rest|
  {
    var u := x + p + enc + rest;
    var l := |x| + |p| + |enc|;
    assert u[|x|..|x| + |p|] == p;
    assert forall k :: |x| + |p| <= k < l ==> u[k] == enc[k - |x| - |p|];
    if rest != [] && rest[0] == '\n' {
      assert u[l] == '\n';
      LineEndAt(u, |x| + |p|, l);
    }
    if '\n' !in rest {
      assert forall k :: l <= k < |u| ==> u[k] == rest[k - l];
      LineEndAt(u, |x| + |p|, |u|);
    }
  }

  lemma CommentShape(a: string, id: string, enc: string, nl: string, z: string)
    ensures a + MetaLine(id, enc) + nl + z == (a + "\n") + MetaPrefix(id) + enc + (nl + z)
    ensures a + MetaLine(id, enc) + nl + z == ((a + "\n") + MetaPrefix(id) + enc + nl) + z
    ensures (a + MetaLine(id, enc) + nl + z)[0..|a| + 1] == a + "\n"
  {
    var u := a + MetaLine(id, enc) + nl + z;
    assert u == (a + "\n") + MetaPrefix(id) + enc + (nl + z);
    assert u[0..|a| + 1] == (a + "\n");
  }

  /** Deleting the comment line right after `a`: `a`, the inserted newline,
      the comment `%@rep:<id>:<enc>`, then either a newline and the rest `z`,
      or (`ends` false) a rest `z` with no newline at all. The newline after
      the comment goes with it, the inserted one stays. */
  lemma RemoveComment(a: string, id: string, enc: string, z: string, ends: bool)
    requires '\n' !in id && '\n' !in enc
    requires Absent(a, MetaPrefix(id))
    requires ends ==> Absent(z, MetaPrefix(id))
    requires !ends ==> '\n' !in z
    ensures Remove(a + MetaLine(id, enc) + (if ends then "\n" else "") + z, id)
      == a + "\n" + (if ends then z else [])
  {
    var p := MetaPrefix(id);
    var nl: string := if ends then "\n" else "";
    var u := a + MetaLine(id, enc) + nl + z;
    var x := a + "\n";
    CommentShape(a, id, enc, nl, z);
    CleanBeforeNewline(a, "\n" + p + enc + (nl + z), p);
    assert a + ("\n" + p + enc + (nl + z)) == u;
    RemoveSkip(u, 0, |x|, p);
    CommentSpan(x, p, enc, nl + z);
    var g := SpanEnd(u, |x|, p);
    assert RemoveFrom(u, |x|, p) == RemoveFrom(u, g, p);
    if ends {
      assert g == |x + p + enc + nl|;
      RemoveTail(x + p + enc + nl, z, p);
    } else {
      assert g == |u|;
      assert RemoveFrom(u, g, p) == [];
    }
  }

  // ---------------------------------------------------------------------
  // Saving one card's record
  // ---------------------------------------------------------------------

  /** The card block with header `h` starts at `i` and ends at `e`, and no
      other occurrence of `h` is in `t`. */
  predicate OneBlock(t: string, h: string, i: nat, e: nat)
  {
    i <= |t| && CardMatchAt(t, i, h) == Some(e)
    && forall j :: 0 <= j < |t| && j != i ==> !StartsAt(t, j, h)
  }

  /** No occurrence in a concatenation is absent from neither part. */
  lemma AbsentSplit(x: string, y: string, p: string)
    requires Absent(x + y, p)
    ensures Absent(x, p) && Absent(y, p)
  {
    forall j | 0 <= j < |x|
      ensures !StartsAt(x, j, p)
    {
      if j + |p| <= |x| {
        StartsAtLeft(x, y, j, p);
      }
    }
    forall j | 0 <= j < |y|
      ensures !StartsAt(y, j, p)
    {
      StartsAtRight(x, y, j, p);
    }
  }

  /** Past the end of the one block there is no header. */
  lemma AfterBlockClean(t: string, h: string, i: nat, e: nat)
    requires OneBlock(t, h, i, e)
    ensures Absent(t[e..], h)
  {
    assert t == t[..e] + t[e..];
    forall k | 0 <= k < |t[e..]|
      ensures !StartsAt(t[e..], k, h)
    {
      StartsAtRight(t[..e], t[e..], k, h);
    }
  }

  /** Where a newline-free `h` can occur once a newline is put between `a`
      and `y`: within `a`, or within `y`. */
  lemma HeaderAroundNewline(a: string, y: string, j: nat, h: string)
    requires '\n' !in h && h != []
    ensures StartsAt(a + "\n" + y, j, h) ==>
      (j + |h| <= |a| && StartsAt(a, j, h)) || (j > |a| && StartsAt(y, j - |a| - 1, h))
  {
    var r := "\n" + y;
    assert a + "\n" + y == a + r;
    if j + |h| <= |a| {
      StartsAtLeft(a, r, j, h);
    } else if j < |a| {
      StartsAtSeam(a, r, j, h);
    } else if j == |a| {
      assert (a + r)[j] == '\n' && h[0] in h;
    } else {
      assert a + "\n" + y == (a + "\n") + y;
      StartsAtRight(a + "\n", y, j - |a| - 1, h);
    }
  }

  /** A newline put right after the block keeps it the one block. */
  lemma NewlineAfterBlock(t: string, h: string, i: nat, e: nat, y: string)
    requires '\n' !in h && h != [] && OneBlock(t, h, i, e)
    requires Absent(y, h)
    ensures OneBlock(t[..e] + "\n" + y, h, i, e)
  {
    var a := t[..e];
    var v := a + "\n" + y;
    assert v[..e] == t[..e];
    CardMatchAgree(t, v, i, e, h);
    forall j | 0 <= j < |v| && j != i
      ensures !StartsAt(v, j, h)
    {
      HeaderAroundNewline(a, y, j, h);
      if StartsAt(v, j, h) {
        if j + |h| <= |a| {
          assert t == a + t[e..];
          StartsAtLeft(a, t[e..], j, h);
          assert false;
        }
      }
    }
  }

  /** The text with the comment line put after the block ending at `e`. */
  function Saved(t: string, e: nat, line: string, terminate: bool): string
    requires e <= |t|
  {
    t[..e] + Appended(t, e, line, terminate) + t[e..]
  }

  /** Saving a record into a text with one block of the card and no comment
      line of its id puts the comment right after the block: the corrected
      rewrite ends it with a newline unless one follows the block already,
      the rewrite as written never does. */
  lemma SaveOnce(t: string, id: string, enc: string, i: nat, e: nat)
    requires Absent(t, MetaPrefix(id)) && OneBlock(t, Header(id), i, e)
    ensures Rewrite(t, [(id, enc)]) == Saved(t, e, MetaLine(id, enc), true)
    ensures RewriteAsWritten(t, [(id, enc)]) == Saved(t, e, MetaLine(id, enc), false)
    ensures Saved(t, e, MetaLine(id, enc), false) == t[..e] + MetaLine(id, enc) + t[e..]
  {
    RewriteSingle(t, id, enc);
    RemoveNoMatch(t, id);
    InsertOne(t, i, e, Header(id), MetaLine(id, enc), true);
    InsertOne(t, i, e, Header(id), MetaLine(id, enc), false);
  }

  /** The second corrected save when a newline already follows the block. */
  lemma ResaveEnded(t: string, id: string, enc: string, i: nat, e: nat)
    requires '\n' !in id && '\n' !in enc
    requires Absent(t, MetaPrefix(id)) && OneBlock(t, Header(id), i, e)
    requires e < |t| && t[e] == '\n'
    ensures InsertMeta(Remove(Saved(t, e, MetaLine(id, enc), true), id), id, enc) == Saved(t, e, MetaLine(id, enc), true)
  {
    var a, z := t[..e], t[e + 1..];
    assert t == a + ("\n" + z);
    AbsentSplit(a, "\n" + z, MetaPrefix(id));
    AbsentSplit("\n", z, MetaPrefix(id));
    assert Saved(t, e, MetaLine(id, enc), true) == a + MetaLine(id, enc) + "\n" + z;
    RemoveComment(a, id, enc, z, true);
    assert a + "\n" + z == t;
    InsertOne(t, i, e, Header(id), MetaLine(id, enc), true);
  }

  /** The removal in the second corrected save when no newline follows the
      block: it leaves the newline that the first save put there. */
  lemma ResaveOpenRemove(t: string, id: string, enc: string, e: nat)
    requires '\n' !in id && '\n' !in enc
    requires Absent(t, MetaPrefix(id)) && e <= |t|
    ensures Remove(t[..e] + (MetaLine(id, enc) + "\n") + t[e..], id) == t[..e] + "\n" + t[e..]
  {
    var a, b := t[..e], t[e..];
    assert t == a + b;
    AbsentSplit(a, b, MetaPrefix(id));
    RemoveComment(a, id, enc, b, true);
    assert a + (MetaLine(id, enc) + "\n") + b == a + MetaLine(id, enc) + "\n" + b;
  }

  /** The second corrected save when no newline follows the block. */
  lemma ResaveOpen(t: string, id: string, enc: string, i: nat, e: nat)
    requires '\n' !in id && '\n' !in enc
    requires Absent(t, MetaPrefix(id)) && OneBlock(t, Header(id), i, e)
    requires !(e < |t| && t[e] == '\n')
    ensures InsertMeta(Remove(Saved(t, e, MetaLine(id, enc), true), id), id, enc) == Saved(t, e, MetaLine(id, enc), true)
  {
    var line := MetaLine(id, enc);
    assert Saved(t, e, line, true) == t[..e] + (line + "\n") + t[e..];
    ResaveOpenRemove(t, id, enc, e);
    ResaveOpenInsert(t, id, enc, i, e);
  }

  /** The insertion in the second corrected save when no newline follows
      the block: the newline left after the block ends the new line. */
  lemma ResaveOpenInsert(t: string, id: string, enc: string, i: nat, e: nat)
    requires '\n' !in id && OneBlock(t, Header(id), i, e)
    requires !(e < |t| && t[e] == '\n')
    ensures InsertMeta(t[..e] + "\n" + t[e..], id, enc) == Saved(t, e, MetaLine(id, enc), true)
  {
    var v := t[..e] + "\n" + t[e..];
    AfterBlockClean(t, Header(id), i, e);
    NewlineAfterBlock(t, Header(id), i, e, t[e..]);
    InsertOne(v, i, e, Header(id), MetaLine(id, enc), true);
    SavedAfterNewline(t, e, MetaLine(id, enc));
  }

  /** Putting the comment after a newline put after the block is putting
      the comment and its newline after the block. */
  lemma SavedAfterNewline(t: string, e: nat, line: string)
    requires e <= |t| && !(e < |t| && t[e] == '\n')
    ensures Saved(t[..e] + "\n" + t[e..], e, line, true) == Saved(t, e, line, true)
  {
    var v := t[..e] + "\n" + t[e..];
    assert v[..e] == t[..e] && v[e..] == "\n" + t[e..];
    assert Saved(v, e, line, true) == t[..e] + line + ("\n" + t[e..]);
  }

  /** Saving the same record twice with the corrected rewrite gives what
      saving it once gives. */
  lemma SaveTwice(t: string, id: string, enc: string, i: nat, e: nat)
    requires '\n' !in id && '\n' !in enc
    requires Absent(t, MetaPrefix(id)) && OneBlock(t, Header(id), i, e)
    ensures Rewrite(Rewrite(t, [(id, enc)]), [(id, enc)]) == Rewrite(t, [(id, enc)])
  {
    SaveOnce(t, id, enc, i, e);
    RewriteSingle(Saved(t, e, MetaLine(id, enc), true), id, enc);
    if e < |t| && t[e] == '\n' {
      ResaveEnded(t, id, enc, i, e);
    } else {
      ResaveOpen(t, id, enc, i, e);
    }
  }

  /** The rewrite as written, on a block followed by text on its own last
      line: the second save deletes that text. */
  lemma AsWrittenSecondSaveLosesText(t: string, id: string, enc: string, i: nat, e: nat)
    requires '\n' !in id && '\n' !in enc
    requires Absent(t, MetaPrefix(id)) && OneBlock(t, Header(id), i, e)
    requires e < |t| && '\n' !in t[e..]
    ensures RewriteAsWritten(RewriteAsWritten(t, [(id, enc)]), [(id, enc)]) == t[..e] + MetaLine(id, enc) + "\n"
    ensures RewriteAsWritten(RewriteAsWritten(t, [(id, enc)]), [(id, enc)]) != RewriteAsWritten(t, [(id, enc)])
  {
    var line := MetaLine(id, enc);
    var w := RewriteAsWritten(t, [(id, enc)]);
    SaveOnce(t, id, enc, i, e);
    RewriteSingle(w, id, enc);
    AsWrittenRemove(t, id, enc, e);
    AsWrittenInsert(t, id, enc, i, e);
    var w2 := t[..e] + line + "\n";
    assert |w| == |w2| ==> w[|w| - 1] != w2[|w2| - 1];
  }

  /** The removal in the second save as written: the old line goes with
      everything after it on its line. */
  lemma AsWrittenRemove(t: string, id: string, enc: string, e: nat)
    requires '\n' !in id && '\n' !in enc
    requires Absent(t, MetaPrefix(id)) && e <= |t| && '\n' !in t[e..]
    ensures Remove(t[..e] + MetaLine(id, enc) + t[e..], id) == t[..e] + "\n"
  {
    var a, b := t[..e], t[e..];
    assert t == a + b;
    AbsentSplit(a, b, MetaPrefix(id));
    assert a + MetaLine(id, enc) + b == a + MetaLine(id, enc) + "" + b;
    RemoveComment(a, id, enc, b, false);
  }

  /** The insertion in the second save as written. */
  lemma AsWrittenInsert(t: string, id: string, enc: string, i: nat, e: nat)
    requires '\n' !in id && OneBlock(t, Header(id), i, e)
    ensures InsertAsWritten(t[..e] + "\n", id, enc) == t[..e] + MetaLine(id, enc) + "\n"
  {
    var v := t[..e] + "\n";
    assert v == t[..e] + "\n" + [];
    NewlineAfterBlock(t, Header(id), i, e, []);
    InsertOne(v, i, e, Header(id), MetaLine(id, enc), false);
    assert v[..e] == t[..e] && v[e..] == "\n";
  }

  // ---------------------------------------------------------------------
  // save_repetition_data
  // ---------------------------------------------------------------------

  /** A dict's items: its keys in insertion order, each with its value. */
  function Items(order: seq<string>, m: map<string, string>): (r: seq<(string, string)>)
    requires forall k :: 0 <= k < |order| ==> order[k] in m
    ensures Ids(r) == order
  {
    seq(|order|, k requires 0 <= k < |order| => (order[k], m[order[k]]))
  }

  /** Assigning into the dict is `Upsert` on its items. */
  lemma ItemsUpsert(order: seq<string>, m: map<string, string>, id: string, enc: string)
    requires KeysInOrder(order, m)
    ensures var order' := if id in m then order else order + [id];
      Items(order', m[id := enc]) == Upsert(Items(order, m), id, enc)
  {
    var r := Upsert(Items(order, m), id, enc);
    var order' := if id in m then order else order + [id];
    assert id in Ids(Items(order, m)) <==> id in m;
    assert |Items(order', m[id := enc])| == |r|;
    forall a | 0 <= a < |r|
      ensures Items(order', m[id := enc])[a] == r[a]
    {
      if r[a].0 != id {
        assert r[a] == Items(order, m)[a];
      }
    }
  }

  lemma FileEntriesNext(cards: seq<FlashCard>, filepath: string, n: nat)
    requires n < |cards| && Encodable(cards, filepath)
    ensures FileEntries(cards, filepath, n + 1) == FileEntries(cards, filepath, n)
      + if cards[n].sourceFile == filepath then [(cards[n].id, cards[n].rep.ToString())] else []
  {
  }

  lemma CollectSnoc(es: seq<(string, string)>, x: (string, string))
    ensures Collect(es + [x]) == Upsert(Collect(es), x.0, x.1)
  {
    assert (es + [x])[..|es|] == es;
  }

  /** `rep_updates[id] = enc` on the dict and its insertion order is one
      more entry collected. */
  lemma DictStep(order: seq<string>, m: map<string, string>, es: seq<(string, string)>, id: string, enc: string)
    requires KeysInOrder(order, m) && Items(order, m) == Collect(es)
    ensures var order' := if id in m then order else order + [id];
      KeysInOrder(order', m[id := enc]) && Items(order', m[id := enc]) == Collect(es + [(id, enc)])
  {
    ItemsUpsert(order, m, id, enc);
    CollectSnoc(es, (id, enc));
    KeysStep(order, m, id, enc);
  }

  lemma KeysStep(order: seq<string>, m: map<string, string>, id: string, enc: string)
    requires KeysInOrder(order, m)
    ensures var order' := if id in m then order else order + [id];
      KeysInOrder(order', m[id := enc])
  {
    var order' := if id in m then order else order + [id];
    var m' := m[id := enc];
    assert m'.Keys == m.Keys + {id};
    if id !in m {
      var a := set k | 0 <= k < |order| :: order[k];
      var b := set k | 0 <= k < |order'| :: order'[k];
      forall x | x in b
        ensures x in a + {id}
      {
        var k :| 0 <= k < |order'| && order'[k] == x;
        if k < |order| {
          assert order[k] == x;
        }
      }
      forall x | x in a + {id}
        ensures x in b
      {
        if x == id {
          assert order'[|order|] == id;
        } else {
          var k :| 0 <= k < |order| && order[k] == x;
          assert order'[k] == x;
        }
      }
    }
  }

  /** `order` lists the keys of `m`, each once. */
  ghost predicate KeysInOrder(order: seq<string>, m: map<string, string>)
  {
    (forall k :: 0 <= k < |order| ==> order[k] in m) && m.Keys == set k | 0 <= k < |order| :: order[k]
  }

  /** The first loop of `save_repetition_data`: `rep_updates[card.id] =
      card.rep_data.to_string()` for each card of the file, giving the dict's
      keys in insertion order and the dict. */
  method CollectRepUpdates(filepath: string, cards: seq<FlashCard>)
    returns (order: seq<string>, repUpdates: map<string, string>)
    requires Encodable(cards, filepath)
    ensures KeysInOrder(order, repUpdates)
    ensures Items(order, repUpdates) == UpdatesOf(cards, filepath)
  {
    order, repUpdates := [], map[];
    ghost var es: seq<(string, string)> := [];
    var i := 0;
    while i < |cards|
      invariant 0 <= i <= |cards| && es == FileEntries(cards, filepath, i)
      invariant KeysInOrder(order, repUpdates) && Items(order, repUpdates) == Collect(es)
    {
      var card := cards[i];
      FileEntriesNext(cards, filepath, i);
      if card.sourceFile == filepath {
        var enc := card.rep.ToString();
        DictStep(order, repUpdates, es, card.id, enc);
        if card.id !in repUpdates {
          order := order + [card.id];
        }
        repUpdates := repUpdates[card.id := enc];
        es := es + [(card.id, enc)];
      } else {
        assert es + [] == es;
      }
      i := i + 1;
    }
  }

  lemma RemoveAllStep(t: string, ids: seq<string>, j: nat)
    requires j < |ids|
    ensures RemoveAll(t, ids[..j + 1]) == Remove(RemoveAll(t, ids[..j]), ids[j])
  {
    assert ids[..j + 1][..j] == ids[..j];
  }

  lemma InsertAllStep(t: string, ups: seq<(string, string)>, j: nat, terminate: bool)
    requires j < |ups|
    ensures InsertAll(t, ups[..j + 1], terminate)
      == InsertFrom(InsertAll(t, ups[..j], terminate), 0, Header(ups[j].0), MetaLine(ups[j].0, ups[j].1), terminate)
  {
    assert ups[..j + 1][..j] == ups[..j];
  }

  /** The second loop: every old line of each id in `ids` deleted in turn. */
  method RemoveOldLines(content: string, ids: seq<string>) returns (text: string)
    ensures text == RemoveAll(content, ids)
  {
    text := content;
    var j := 0;
    while j < |ids|
      invariant 0 <= j <= |ids| && text == RemoveAll(content, ids[..j])
    {
      RemoveAllStep(content, ids, j);
      text := Remove(text, ids[j]);
      j := j + 1;
    }
    assert ids[..j] == ids;
  }

  /** The third loop: a fresh line put after the blocks of each id in turn
      (with the line ended, as corrected). */
  method InsertNewLines(content: string, ups: seq<(string, string)>) returns (text: string)
    ensures text == InsertAll(content, ups, true)
  {
    text := content;
    var j := 0;
    while j < |ups|
      invariant 0 <= j <= |ups| && text == InsertAll(content, ups[..j], true)
    {
      InsertAllStep(content, ups, j, true);
      var (cardId, repStr) := ups[j];
      text := InsertFrom(text, 0, Header(cardId), MetaLine(cardId, repStr), true);
      j := j + 1;
    }
    assert ups[..j] == ups;
  }

  /** `save_repetition_data(filepath, cards)` on the file text `content`,
      giving the new text: `rep_updates` is filled from the cards of the file,
      then every old line of an updated id is deleted, then a fresh line is
      put after the blocks of each id. */
  method SaveRepetitionData(content: string, filepath: string, cards: seq<FlashCard>) returns (result: string)
    requires Encodable(cards, filepath)
    ensures result == Rewrite(content, UpdatesOf(cards, filepath))
  {
    var order, repUpdates := CollectRepUpdates(filepath, cards);
    var removed := RemoveOldLines(content, order);
    result := InsertNewLines(removed, Items(order, repUpdates));
  }
}
