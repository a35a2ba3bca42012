/** Hand-written scanners for the four regular expressions of the document
    parser, each with the leftmost-first, non-overlapping behaviour of
    `re.finditer` / `re.search`:

      `%@rep:([^:]+):(.+)`                                  metadata tokens
      `\\section\{([^}]+)\}`                                section markers
      `\\begin\{flashcard\}\{([^}]+)\}(.*?)\\end\{flashcard\}` (DOTALL)  card blocks
      `\\Q(?:block)?\{((?:[^{}]|\{[^{}]*\})*)\}`            question (and `\\A…` answer)

    A scan tries a match at each offset in turn; after a match it resumes at
    the match's end. */
module Scan {
  import opened Text

  const RepPrefix := "%@rep:"
  const SectionPrefix := "\\section{"
  const BeginPrefix := "\\begin{flashcard}{"
  const EndMarker := "\\end{flashcard}"

  // ---------------------------------------------------------------- tokens

  /** A metadata token: `%@rep:` at `start`, the id up to the first colon,
      and the payload up to the end of the line (`end`). */
  datatype RepToken = RepToken(start: nat, id: string, payload: string, end: nat)

  /** The metadata pattern tried at offset `i`: the id is one or more
      non-colon characters (newlines included) and the payload one or more
      characters other than a newline. */
  function RepTokenAt(t: string, i: nat): (m: Option<RepToken>)
    ensures m.Some? ==> m.value.start == i && i < m.value.end <= |t|
    ensures m.Some? ==> StartsAt(t, i, RepPrefix + m.value.id + ":" + m.value.payload)
    ensures m.Some? ==> m.value.id != [] && ':' !in m.value.id
    ensures m.Some? ==> m.value.payload != [] && '\n' !in m.value.payload
    ensures m.Some? ==> m.value.end == i + |RepPrefix| + |m.value.id| + 1 + |m.value.payload|
    ensures m.Some? ==> m.value.end == |t| || t[m.value.end] == '\n'
  {
    if !StartsAt(t, i, RepPrefix) then None
    else match FindChar(t, i + |RepPrefix|, ':')
      case None => None
      case Some(j) =>
        if j == i + |RepPrefix| then None
        else
          var e := LineEnd(t, j + 1);
          if e == j + 1 then None
          else
            Pieces(t, i, RepPrefix, j, e);
            Some(RepToken(i, t[i + |RepPrefix|..j], t[j + 1..e], e))
  }

  /** All metadata tokens at or after `i`, in document order. */
  function RepTokensFrom(t: string, i: nat): (r: seq<RepToken>)
    decreases |t| - i
    ensures forall k :: 0 <= k < |r| ==> i <= r[k].start && RepTokenAt(t, r[k].start) == Some(r[k])
    ensures forall k :: 0 <= k < |r| - 1 ==> r[k].end <= r[k + 1].start
  {
    if i >= |t| then []
    else match RepTokenAt(t, i)
      case Some(m) => [m] + RepTokensFrom(t, m.end)
      case None => RepTokensFrom(t, i + 1)
  }

  function RepTokens(t: string): seq<RepToken>
  {
    RepTokensFrom(t, 0)
  }

  /** An occurrence of `p`, an argument free of `close`, and `close`: the
      first `close` after `p` is the one that ends the argument. */
  lemma ArgumentChars(t: string, i: nat, p: string, arg: string, close: char)
    requires close !in arg && StartsAt(t, i, p + arg + [close])
    ensures StartsAt(t, i, p) && t[i + |p|..i + |p| + |arg|] == arg
    ensures FindChar(t, i + |p|, close) == Some(i + |p| + |arg|)
  {
    var b := i + |p|;
    StartsAtSplit(t, i, p + arg, [close]);
    StartsAtSplit(t, i, p, arg);
    StartsAtChars(t, b, arg);
    forall k | b <= k < b + |arg| ensures t[k] != close {
      assert t[k] == arg[k - b];
    }
    assert t[b + |arg|..b + |arg| + 1] == [close];
    FindCharAt(t, b, b + |arg|, close);
  }

  /** The characters an occurrence of the metadata pattern puts in the text. */
  lemma RepPatternChars(t: string, i: nat, id: string, payload: string)
    requires ':' !in id && '\n' !in payload
    requires StartsAt(t, i, RepPrefix + id + ":" + payload)
    ensures StartsAt(t, i, RepPrefix) && t[i + |RepPrefix|..i + |RepPrefix| + |id|] == id
    ensures t[i + |RepPrefix| + |id|] == ':'
    ensures forall k :: i + |RepPrefix| <= k < i + |RepPrefix| + |id| ==> t[k] != ':'
    ensures forall k :: i + |RepPrefix| + |id| + 1 <= k < i + |RepPrefix| + |id| + 1 + |payload| ==> t[k] != '\n'
    ensures t[i + |RepPrefix| + |id| + 1..i + |RepPrefix| + |id| + 1 + |payload|] == payload
  {
    var b := i + |RepPrefix|;
    var c := b + |id|;
    StartsAtSplit(t, i, RepPrefix + id + ":", payload);
    StartsAtSplit(t, i, RepPrefix + id, ":");
    StartsAtSplit(t, i, RepPrefix, id);
    StartsAtChars(t, b, id);
    StartsAtChars(t, c + 1, payload);
    forall k | b <= k < c ensures t[k] != ':' {
      assert t[k] == id[k - b];
    }
    forall k | c + 1 <= k < c + 1 + |payload| ensures t[k] != '\n' {
      assert t[k] == payload[k - c - 1];
    }
  }

  /** Where the metadata pattern occurs at `i`, the scan finds it there, with
      the same id and a payload that runs on to the end of the line. */
  lemma RepTokenAtFinds(t: string, i: nat, id: string, payload: string)
    requires id != [] && ':' !in id && payload != [] && '\n' !in payload
    requires StartsAt(t, i, RepPrefix + id + ":" + payload)
    ensures RepTokenAt(t, i).Some? && RepTokenAt(t, i).value.id == id
    ensures |payload| <= |RepTokenAt(t, i).value.payload|
    ensures RepTokenAt(t, i).value.payload[..|payload|] == payload
  {
    var c := i + |RepPrefix| + |id|;
    RepPatternChars(t, i, id, payload);
    FindCharAt(t, i + |RepPrefix|, c, ':');
    LineEndAtLeast(t, c + 1, c + 1 + |payload|);
    var e := LineEnd(t, c + 1);
    assert t[c + 1..e][..|payload|] == t[c + 1..c + 1 + |payload|];
  }

  /** No token of `r` spans the offset `j`. */
  predicate OutsideTokens(r: seq<RepToken>, j: int)
  {
    forall k :: 0 <= k < |r| ==> !(r[k].start <= j < r[k].end)
  }

  lemma OutsideTokensTail(m: RepToken, rest: seq<RepToken>, j: int)
    requires OutsideTokens([m] + rest, j)
    ensures !(m.start <= j < m.end) && OutsideTokens(rest, j)
  {
    assert ([m] + rest)[0] == m;
    forall k | 0 <= k < |rest| ensures !(rest[k].start <= j < rest[k].end) {
      assert rest[k] == ([m] + rest)[k + 1];
    }
  }

  /** The scan skips no token: an offset from `i` on that no returned token
      spans is not the start of a token. */
  lemma {:induction false} RepTokensCover(t: string, i: nat, j: nat)
    requires i <= j < |t| && OutsideTokens(RepTokensFrom(t, i), j)
    decreases |t| - i
    ensures RepTokenAt(t, j).None?
  {
    match RepTokenAt(t, i)
    case Some(m) =>
      OutsideTokensTail(m, RepTokensFrom(t, m.end), j);
      RepTokensCover(t, m.end, j);
    case None =>
      if j > i {
        RepTokensCover(t, i + 1, j);
      }
  }

  // -------------------------------------------------------------- sections

  /** A section marker `\section{name}` at `start`, ending at `end`. */
  datatype Section = Section(start: nat, name: string, end: nat)

  /** The section pattern at offset `i`: the name is one or more
      characters other than `}`. */
  function SectionAt(t: string, i: nat): (m: Option<Section>)
    ensures m.Some? ==> m.value.start == i && i < m.value.end <= |t|
    ensures m.Some? ==> StartsAt(t, i, SectionPrefix + m.value.name + "}")
    ensures m.Some? ==> m.value.name != [] && '}' !in m.value.name
  {
    if !StartsAt(t, i, SectionPrefix) then None
    else match FindChar(t, i + |SectionPrefix|, '}')
      case None => None
      case Some(j) =>
        if j == i + |SectionPrefix| then None
        else
          StartsAtConcat(t, i, SectionPrefix, t[i + |SectionPrefix|..j]);
          StartsAtConcat(t, i, SectionPrefix + t[i + |SectionPrefix|..j], [t[j]]);
          Some(Section(i, t[i + |SectionPrefix|..j], j + 1))
  }

  function SectionsFrom(t: string, i: nat): (r: seq<Section>)
    decreases |t| - i
    ensures forall k :: 0 <= k < |r| ==> i <= r[k].start && SectionAt(t, r[k].start) == Some(r[k])
    ensures forall k :: 0 <= k < |r| - 1 ==> r[k].end <= r[k + 1].start
  {
    if i >= |t| then []
    else match SectionAt(t, i)
      case Some(m) => [m] + SectionsFrom(t, m.end)
      case None => SectionsFrom(t, i + 1)
  }

  /** Every section marker of the text with its offset, in document order. */
  function Sections(t: string): seq<Section>
  {
    SectionsFrom(t, 0)
  }

  /** Where the section pattern occurs at `i`, the scan finds it there. */
  lemma SectionAtFinds(t: string, i: nat, name: string)
    requires name != [] && '}' !in name && StartsAt(t, i, SectionPrefix + name + "}")
    ensures SectionAt(t, i) == Some(Section(i, name, i + |SectionPrefix| + |name| + 1))
  {
    ArgumentChars(t, i, SectionPrefix, name, '}');
  }

  /** No section of `r` spans the offset `j`. */
  predicate OutsideSections(r: seq<Section>, j: int)
  {
    forall k :: 0 <= k < |r| ==> !(r[k].start <= j < r[k].end)
  }

  lemma OutsideSectionsTail(m: Section, rest: seq<Section>, j: int)
    requires OutsideSections([m] + rest, j)
    ensures !(m.start <= j < m.end) && OutsideSections(rest, j)
  {
    assert ([m] + rest)[0] == m;
    forall k | 0 <= k < |rest| ensures !(rest[k].start <= j < rest[k].end) {
      assert rest[k] == ([m] + rest)[k + 1];
    }
  }

  /** The scan skips no section marker: an offset from `i` on that no
      returned section spans is not the start of one. */
  lemma {:induction false} SectionsCover(t: string, i: nat, j: nat)
    requires i <= j < |t| && OutsideSections(SectionsFrom(t, i), j)
    decreases |t| - i
    ensures SectionAt(t, j).None?
  {
    match SectionAt(t, i)
    case Some(m) =>
      OutsideSectionsTail(m, SectionsFrom(t, m.end), j);
      SectionsCover(t, m.end, j);
    case None =>
      if j > i {
        SectionsCover(t, i + 1, j);
      }
  }

  // ------------------------------------------------------------ card blocks

  /** A card block at `start`: the raw id argument, the body up to the first
      end marker, and the offset just past that marker. */
  datatype Block = Block(start: nat, rawId: string, body: string, end: nat)

  /** The card pattern at offset `i`: an id of one or more characters other
      than `}`, then the shortest body (any characters) before `\end{flashcard}`. */
  function BlockAt(t: string, i: nat): (m: Option<Block>)
    ensures m.Some? ==> m.value.start == i && i < m.value.end <= |t|
    ensures m.Some? ==> m.value.rawId != [] && '}' !in m.value.rawId
  {
    if !StartsAt(t, i, BeginPrefix) then None
    else match FindChar(t, i + |BeginPrefix|, '}')
      case None => None
      case Some(j) =>
        if j == i + |BeginPrefix| then None
        else match BodyEnd(t, j)
          case None => None
          case Some(k) => Some(Block(i, t[i + |BeginPrefix|..j], t[j + 1..k], k + |EndMarker|))
  }

  /** Where the first end marker after the closing brace at `j` starts. */
  function BodyEnd(t: string, j: nat): Option<nat>
  {
    FindFrom(t, j + 1, EndMarker)
  }

  /** The block the scan returns once the closing brace at `j` and the end
      marker at `k` are found. */
  lemma BlockAtIs(t: string, i: nat, j: nat, k: nat)
    requires StartsAt(t, i, BeginPrefix) && j != i + |BeginPrefix|
    requires FindChar(t, i + |BeginPrefix|, '}') == Some(j) && BodyEnd(t, j) == Some(k)
    ensures BlockAt(t, i) == Some(Block(i, t[i + |BeginPrefix|..j], t[j + 1..k], k + |EndMarker|))
  {
  }

  /** A block the scan returns is an occurrence of the card pattern whose
      body runs up to the first end marker after the id. */
  lemma BlockAtMatches(t: string, i: nat)
    requires BlockAt(t, i).Some?
    ensures var m := BlockAt(t, i).value;
      StartsAt(t, i, BeginPrefix + m.rawId + "}" + m.body + EndMarker)
    ensures var m := BlockAt(t, i).value;
      forall k :: i + |BeginPrefix| + |m.rawId| + 1 <= k < m.end - |EndMarker| ==> !StartsAt(t, k, EndMarker)
  {
    var m := BlockAt(t, i).value;
    var j := FindChar(t, i + |BeginPrefix|, '}').value;
    var k := BodyEnd(t, j).value;
    BlockAtIs(t, i, j, k);
    PatternFromPieces(t, i, BeginPrefix, m.rawId, '}', m.body, EndMarker);
  }

  /** A prefix, an argument, a closing character, a body and a suffix found
      back to back make up one occurrence of their concatenation. */
  lemma PatternFromPieces(t: string, i: nat, p: string, arg: string, close: char, body: string, q: string)
    requires StartsAt(t, i, p) && StartsAt(t, i + |p|, arg)
    requires i + |p| + |arg| < |t| && t[i + |p| + |arg|] == close
    requires StartsAt(t, i + |p| + |arg| + 1, body) && StartsAt(t, i + |p| + |arg| + 1 + |body|, q)
    ensures StartsAt(t, i, p + arg + [close] + body + q)
  {
    var c := i + |p| + |arg|;
    assert StartsAt(t, c, [close]);
    StartsAtConcat(t, i, p, arg);
    StartsAtConcat(t, i, p + arg, [close]);
    StartsAtConcat(t, i, p + arg + [close], body);
    StartsAtConcat(t, i, p + arg + [close] + body, q);
  }

  /** A pattern `p` at `i`, the text up to `j`, the character at `j` and the
      text from there up to `e`, put back together, occur at `i`. */
  lemma Pieces(t: string, i: nat, p: string, j: nat, e: nat)
    requires StartsAt(t, i, p) && i + |p| <= j < e <= |t|
    ensures StartsAt(t, i, p + t[i + |p|..j] + [t[j]] + t[j + 1..e])
  {
    var b := i + |p|;
    StartsAtConcat(t, i, p, t[b..j]);
    StartsAtConcat(t, i, p + t[b..j], [t[j]]);
    StartsAtConcat(t, i, p + t[b..j] + [t[j]], t[j + 1..e]);
  }

  function BlocksFrom(t: string, i: nat): (r: seq<Block>)
    decreases |t| - i
    ensures forall k :: 0 <= k < |r| ==> i <= r[k].start && BlockAt(t, r[k].start) == Some(r[k])
    ensures forall k :: 0 <= k < |r| - 1 ==> r[k].end <= r[k + 1].start
  {
    if i >= |t| then []
    else match BlockAt(t, i)
      case Some(m) =>
        var rest := BlocksFrom(t, m.end);
        assert forall k :: 0 < k < |rest| + 1 ==> ([m] + rest)[k] == rest[k - 1];
        [m] + rest
      case None => BlocksFrom(t, i + 1)
  }

  /** Every card block of the text, in document order. */
  function Blocks(t: string): seq<Block>
  {
    BlocksFrom(t, 0)
  }

  /** The pieces an occurrence of the card pattern puts in the text. */
  lemma BlockPatternParts(t: string, i: nat, rawId: string, body: string)
    requires '}' !in rawId
    requires StartsAt(t, i, BeginPrefix + rawId + "}" + body + EndMarker)
    ensures StartsAt(t, i, BeginPrefix) && StartsAt(t, i + |BeginPrefix|, rawId)
    ensures FindChar(t, i + |BeginPrefix|, '}') == Some(i + |BeginPrefix| + |rawId|)
    ensures StartsAt(t, i + |BeginPrefix| + |rawId| + 1, body)
    ensures StartsAt(t, i + |BeginPrefix| + |rawId| + 1 + |body|, EndMarker)
  {
    StartsAtSplit(t, i, BeginPrefix + rawId + "}" + body, EndMarker);
    StartsAtSplit(t, i, BeginPrefix + rawId + "}", body);
    ArgumentChars(t, i, BeginPrefix, rawId, '}');
  }

  /** Where the card pattern can match at `i` with some body, the scan finds
      a block there with the same id and the shortest such body: a prefix of
      the given one. */
  lemma BlockAtFinds(t: string, i: nat, rawId: string, body: string)
    requires rawId != [] && '}' !in rawId
    requires StartsAt(t, i, BeginPrefix + rawId + "}" + body + EndMarker)
    ensures BlockAt(t, i).Some? && BlockAt(t, i).value.rawId == rawId
    ensures |BlockAt(t, i).value.body| <= |body|
    ensures body[..|BlockAt(t, i).value.body|] == BlockAt(t, i).value.body
  {
    var j := i + |BeginPrefix| + |rawId|;
    BlockPatternParts(t, i, rawId, body);
    BodyEndWithin(t, j, body);
    var k := BodyEnd(t, j).value;
    BlockAtIs(t, i, j, k);
    assert t[i + |BeginPrefix|..j] == rawId;
  }

  /** A body followed by the end marker: the first end marker comes no later,
      so what precedes it is a prefix of that body. */
  lemma BodyEndWithin(t: string, j: nat, body: string)
    requires StartsAt(t, j + 1, body) && StartsAt(t, j + 1 + |body|, EndMarker)
    ensures BodyEnd(t, j).Some? && BodyEnd(t, j).value <= j + 1 + |body|
    ensures t[j + 1..BodyEnd(t, j).value] == body[..BodyEnd(t, j).value - j - 1]
  {
    FindFromAtMost(t, j + 1, j + 1 + |body|, EndMarker);
    var k := BodyEnd(t, j).value;
    assert t[j + 1..k] == t[j + 1..j + 1 + |body|][..k - j - 1];
  }

  /** No block of `r` spans the offset `j`. */
  predicate OutsideBlocks(r: seq<Block>, j: int)
  {
    forall k :: 0 <= k < |r| ==> !(r[k].start <= j < r[k].end)
  }

  lemma OutsideBlocksTail(m: Block, rest: seq<Block>, j: int)
    requires OutsideBlocks([m] + rest, j)
    ensures !(m.start <= j < m.end) && OutsideBlocks(rest, j)
  {
    assert ([m] + rest)[0] == m;
    forall k | 0 <= k < |rest| ensures !(rest[k].start <= j < rest[k].end) {
      assert rest[k] == ([m] + rest)[k + 1];
    }
  }

  /** The scan skips no card block: an offset from `i` on that no returned
      block spans is not the start of one. */
  lemma {:induction false} BlocksCover(t: string, i: nat, j: nat)
    requires i <= j < |t| && OutsideBlocks(BlocksFrom(t, i), j)
    decreases |t| - i
    ensures BlockAt(t, j).None?
  {
    match BlockAt(t, i)
    case Some(m) =>
      OutsideBlocksTail(m, BlocksFrom(t, m.end), j);
      BlocksCover(t, m.end, j);
    case None =>
      if j > i {
        BlocksCover(t, i + 1, j);
      }
  }

  /** The blocks of a text start at strictly increasing offsets. */
  lemma BlocksIncreasing(t: string, i: nat)
    ensures forall a, b :: 0 <= a < b < |BlocksFrom(t, i)| ==> BlocksFrom(t, i)[a].start < BlocksFrom(t, i)[b].start
  {
    var r := BlocksFrom(t, i);
    forall k | 0 <= k < |r| ensures r[k].start < r[k].end {
      assert BlockAt(t, r[k].start) == Some(r[k]);
    }
    ChainIncreasing(r);
  }

  /** Blocks that each end where or before the next one starts. */
  lemma {:induction false} ChainIncreasing(r: seq<Block>)
    requires forall k :: 0 <= k < |r| ==> r[k].start < r[k].end
    requires forall k :: 0 <= k < |r| - 1 ==> r[k].end <= r[k + 1].start
    ensures forall a, b :: 0 <= a < b < |r| ==> r[a].start < r[b].start
  {
    if |r| > 1 {
      ChainIncreasing(r[1..]);
      forall a, b | 0 <= a < b < |r| ensures r[a].start < r[b].start {
        if a > 0 {
          assert r[a] == r[1..][a - 1] && r[b] == r[1..][b - 1];
        } else if b > 1 {
          assert r[1] == r[1..][0] && r[b] == r[1..][b - 1];
        }
      }
    }
  }

  // -------------------------------------------------- brace-delimited arguments

  predicate IsBrace(c: char) { c == '{' || c == '}' }

  /** Offset of the first brace at or after `k`, or `|s|`. */
  function FirstBrace(s: string, k: nat): (g: nat)
    requires k <= |s|
    decreases |s| - k
    ensures k <= g <= |s|
    ensures g < |s| ==> IsBrace(s[g])
    ensures forall p :: k <= p < g ==> !IsBrace(s[p])
  {
    if k == |s| || IsBrace(s[k]) then k else FirstBrace(s, k + 1)
  }

  /** Where the greedy `(?:[^{}]|\{[^{}]*\})*` starting at `k` stops: a
      non-brace character or a brace group with no brace inside is consumed,
      anything else ends the repetition. */
  function ScanItems(s: string, k: nat): (e: nat)
    requires k <= |s|
    decreases |s| - k
    ensures k <= e <= |s|
  {
    if k == |s| then k
    else if !IsBrace(s[k]) then ScanItems(s, k + 1)
    else if s[k] == '{' then
      var g := FirstBrace(s, k + 1);
      if g < |s| && s[g] == '}' then ScanItems(s, g + 1) else k
    else k
  }

  /** The argument opened just before `k`: what the repetition consumes,
      provided a `}` closes it. */
  function BraceArg(s: string, k: nat): Option<string>
    requires k <= |s|
  {
    var e := ScanItems(s, k);
    if e < |s| && s[e] == '}' then Some(s[k..e]) else None
  }

  /** The argument pattern for marker letter `letter` tried at offset `q`:
      `\<letter>block{` or `\<letter>{`, then a brace argument. */
  function ArgAt(s: string, q: nat, letter: char): Option<string>
  {
    if StartsAt(s, q, ['\\', letter] + "block{") then BraceArg(s, q + 7)
    else if StartsAt(s, q, ['\\', letter, '{']) then BraceArg(s, q + 3)
    else None
  }

  /** `re.search` for the argument pattern from offset `q`: the first offset
      where it matches, with the argument. */
  function SearchArg(s: string, q: nat, letter: char): Option<(nat, string)>
    decreases |s| - q
  {
    if q > |s| then None
    else match ArgAt(s, q, letter)
      case Some(c) => Some((q, c))
      case None => SearchArg(s, q + 1, letter)
  }

  /** The search finds the leftmost match: the pattern matches where it
      stops and nowhere before; when it finds nothing, the pattern matches
      nowhere in the rest of the text. */
  lemma {:induction false} SearchArgLeftmost(s: string, q: nat, letter: char)
    decreases |s| - q
    ensures SearchArg(s, q, letter).Some? ==>
      q <= SearchArg(s, q, letter).value.0 && ArgAt(s, SearchArg(s, q, letter).value.0, letter) == Some(SearchArg(s, q, letter).value.1)
    ensures SearchArg(s, q, letter).Some? ==>
      forall p :: q <= p < SearchArg(s, q, letter).value.0 ==> ArgAt(s, p, letter).None?
    ensures SearchArg(s, q, letter).None? ==> forall p :: q <= p ==> ArgAt(s, p, letter).None?
  {
    if q > |s| {
      assert forall p :: p > |s| ==> !StartsAt(s, p, ['\\', letter] + "block{") && !StartsAt(s, p, ['\\', letter, '{']);
    } else if ArgAt(s, q, letter).None? {
      SearchArgLeftmost(s, q + 1, letter);
    }
  }

  /** The stripped argument of the first `\<letter>` / `\<letter>block` in
      a card body, or the empty string when there is none. */
  function Extract(body: string, letter: char): string
  {
    match SearchArg(body, 0, letter)
    case None => ""
    case Some((_, c)) => Strip(c)
  }

  // ------------------------------------ the argument grammar, independently

  /** Brace depth after reading `c` from depth `d`, or `None` once the depth
      leaves 0..1: the one level of nesting the pattern allows. */
  function Run(c: string, d: int): Option<int>
    decreases |c|
  {
    if c == [] then Some(d)
    else
      var d' := if c[0] == '{' then d + 1 else if c[0] == '}' then d - 1 else d;
      if 0 <= d' <= 1 then Run(c[1..], d') else None
  }

  /** `c` is an argument body: brace groups nest at most one level and are
      all closed. */
  predicate OneLevel(c: string)
  {
    Run(c, 0) == Some(0)
  }

  lemma {:induction false} RunConcat(x: string, y: string, d: int)
    ensures Run(x, d).None? ==> Run(x + y, d).None?
    ensures Run(x, d).Some? ==> Run(x + y, d) == Run(y, Run(x, d).value)
    decreases |x|
  {
    if x == [] {
      assert x + y == y;
    } else {
      assert (x + y)[0] == x[0];
      assert (x + y)[1..] == x[1..] + y;
      var d' := if x[0] == '{' then d + 1 else if x[0] == '}' then d - 1 else d;
      if 0 <= d' <= 1 { RunConcat(x[1..], y, d'); }
    }
  }

  lemma {:induction false} RunNoBrace(x: string, d: int)
    requires 0 <= d <= 1
    requires forall p :: 0 <= p < |x| ==> !IsBrace(x[p])
    ensures Run(x, d) == Some(d)
    decreases |x|
  {
    if x != [] { RunNoBrace(x[1..], d); }
  }

  /** What the repetition consumes is an argument body. */
  lemma {:induction false} ScanItemsOneLevel(s: string, k: nat)
    requires k <= |s|
    ensures OneLevel(s[k..ScanItems(s, k)])
    decreases |s| - k
  {
    var e := ScanItems(s, k);
    if k == |s| {
    } else if !IsBrace(s[k]) {
      ScanItemsOneLevel(s, k + 1);
      assert s[k..e] == [s[k]] + s[k + 1..e];
      RunConcat([s[k]], s[k + 1..e], 0);
    } else if s[k] == '{' {
      var g := FirstBrace(s, k + 1);
      if g < |s| && s[g] == '}' {
        ScanItemsOneLevel(s, g + 1);
        var group := s[k..g + 1];
        assert s[k..e] == group + s[g + 1..e];
        GroupOneLevel(s, k, g);
        RunConcat(group, s[g + 1..e], 0);
      }
    }
  }

  /** A brace group `{...}` with no brace inside is an argument body. */
  lemma GroupOneLevel(s: string, k: nat, g: nat)
    requires k < g < |s| && s[k] == '{' && s[g] == '}'
    requires forall p :: k < p < g ==> !IsBrace(s[p])
    ensures OneLevel(s[k..g + 1])
  {
    var inner := s[k + 1..g];
    assert s[k..g + 1] == [s[k]] + inner + [s[g]];
    RunConcat([s[k]] + inner, [s[g]], 0);
    RunConcat([s[k]], inner, 0);
    RunNoBrace(inner, 1);
  }

  /** From depth 1, an argument body first meets a closing brace, and from
      there on is an argument body again. */
  lemma {:induction false} RunFromOne(x: string)
    requires Run(x, 1) == Some(0)
    ensures FirstBrace(x, 0) < |x| && x[FirstBrace(x, 0)] == '}'
    ensures OneLevel(x[FirstBrace(x, 0) + 1..])
    decreases |x|
  {
    if !IsBrace(x[0]) {
      RunFromOne(x[1..]);
      FirstBraceShift(x);
    }
  }

  lemma FirstBraceShift(x: string)
    requires x != [] && !IsBrace(x[0])
    ensures FirstBrace(x, 0) == FirstBrace(x[1..], 0) + 1
  {
    FirstBraceTail(x, 1);
  }

  lemma {:induction false} FirstBraceTail(x: string, k: nat)
    requires 1 <= k <= |x| && forall p :: 0 <= p < k ==> !IsBrace(x[p])
    ensures FirstBrace(x, k) == FirstBrace(x[1..], k - 1) + 1
    decreases |x| - k
  {
    if k < |x| && !IsBrace(x[k]) { FirstBraceTail(x, k + 1); }
  }

  /** Agreeing texts agree on where the first brace is, up to the first brace. */
  lemma {:induction false} FirstBraceAgree(s: string, k: nat, x: string)
    requires k + |x| <= |s| && s[k..k + |x|] == x
    ensures FirstBrace(x, 0) < |x| ==> FirstBrace(s, k) == k + FirstBrace(x, 0)
    decreases |x|
  {
    if x != [] && !IsBrace(x[0]) {
      assert s[k] == x[0];
      assert s[k + 1..k + 1 + |x[1..]|] == x[1..];
      FirstBraceAgree(s, k + 1, x[1..]);
      FirstBraceShift(x);
    } else if x != [] {
      assert s[k] == x[0];
    }
  }

  /** An argument body followed by `}` is exactly what the repetition consumes. */
  lemma {:induction false} ScanItemsOfOneLevel(s: string, k: nat, c: string)
    requires OneLevel(c) && StartsAt(s, k, c + "}")
    ensures ScanItems(s, k) == k + |c|
    decreases |c|
  {
    if c == [] {
      assert s[k] == (c + "}")[0];
    } else {
      assert s[k] == (c + "}")[0] == c[0];
      if !IsBrace(c[0]) {
        ScanPlainStep(s, k, c);
        ScanItemsOfOneLevel(s, k + 1, c[1..]);
      } else {
        var g := ScanGroupStep(s, k, c);
        ScanItemsOfOneLevel(s, k + g + 2, c[1..][g + 1..]);
      }
    }
  }

  lemma ScanPlainStep(s: string, k: nat, c: string)
    requires OneLevel(c) && StartsAt(s, k, c + "}")
    requires c != [] && !IsBrace(c[0])
    ensures OneLevel(c[1..]) && StartsAt(s, k + 1, c[1..] + "}")
  {
    assert (c + "}")[1..] == c[1..] + "}";
    assert s[k + 1..k + 1 + |c[1..] + "}"|] == (c + "}")[1..];
  }

  /** A text that starts at `k` with `p` starts at `k + n` with the rest of `p`. */
  lemma StartsAtDrop(s: string, k: nat, p: string, n: nat)
    requires StartsAt(s, k, p) && n <= |p|
    ensures StartsAt(s, k + n, p[n..])
  {
    assert s[k + n..k + n + |p[n..]|] == s[k..k + |p|][n..];
  }

  /** A leading brace group: its closing brace sits `g + 1` characters in. */
  lemma ScanGroupStep(s: string, k: nat, c: string) returns (g: nat)
    requires OneLevel(c) && StartsAt(s, k, c + "}")
    requires c != [] && IsBrace(c[0]) && s[k] == c[0]
    ensures g + 1 < |c| && g == FirstBrace(c[1..], 0)
    ensures s[k] == '{' && FirstBrace(s, k + 1) == k + 1 + g && s[k + 1 + g] == '}'
    ensures ScanItems(s, k) == ScanItems(s, k + g + 2)
    ensures OneLevel(c[1..][g + 1..]) && StartsAt(s, k + g + 2, c[1..][g + 1..] + "}")
  {
    var x := c[1..];
    assert c[0] == '{';
    assert Run(x, 1) == Some(0);
    RunFromOne(x);
    g := FirstBrace(x, 0);
    StartsAtDrop(s, k, c + "}", 1);
    assert (c + "}")[1..] == x + "}";
    GroupClose(s, k + 1, x, g);
  }

  /** The body of a group, read from just after its `{`. */
  lemma GroupClose(s: string, k: nat, x: string, g: nat)
    requires StartsAt(s, k, x + "}") && g == FirstBrace(x, 0) && g < |x| && x[g] == '}'
    ensures FirstBrace(s, k) == k + g && s[k + g] == '}'
    ensures StartsAt(s, k + g + 1, x[g + 1..] + "}")
  {
    assert s[k..k + |x|] == x by {
      assert s[k..k + |x|] == s[k..k + |x| + 1][..|x|];
    }
    FirstBraceAgree(s, k, x);
    assert s[k + g] == x[g];
    StartsAtDrop(s, k, x + "}", g + 1);
    assert (x + "}")[g + 1..] == x[g + 1..] + "}";
  }

  /** The brace argument is exactly an argument body closed by `}`: the
      scanner accepts what the grammar describes and nothing else. */
  lemma BraceArgIff(s: string, k: nat, c: string)
    requires k <= |s|
    ensures BraceArg(s, k) == Some(c) <==> OneLevel(c) && StartsAt(s, k, c + "}")
  {
    if BraceArg(s, k) == Some(c) {
      ScanItemsOneLevel(s, k);
      var e := ScanItems(s, k);
      assert s[k..e + 1] == c + "}";
    }
    if OneLevel(c) && StartsAt(s, k, c + "}") {
      ScanItemsOfOneLevel(s, k, c);
      var e := k + |c|;
      assert s[k..e] == (c + "}")[..|c|] == c;
      assert s[e] == (c + "}")[|c|] == '}';
    }
  }
}
