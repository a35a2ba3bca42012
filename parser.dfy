/** `parse_flashcard_file` on a document's text: the metadata tokens become
    repetition records (last token per id wins), the section markers are
    collected with their offsets, and every card block whose question and
    answer are both non-empty becomes a card with its section and record. */
module Parser {
  import opened Text
  import opened Dates
  import opened Schedule
  import opened Codec
  import opened Cards
  import opened Scan

  // ------------------------------------------------------- metadata records

  /** Each token's id with its decoded payload (`None` where `from_string`
      raises). */
  function Entries(tokens: seq<RepToken>): (es: seq<(string, Option<Record>)>)
    ensures |es| == |tokens|
    ensures forall k :: 0 <= k < |es| ==> es[k] == (tokens[k].id, Decode(tokens[k].payload))
  {
    seq(|tokens|, k requires 0 <= k < |tokens| => (tokens[k].id, Decode(tokens[k].payload)))
  }

  /** The `rep_data` dictionary the token loop builds from decoded entries:
      each record stored under its id, a later entry overwriting an earlier
      one; `None` as soon as some entry failed to decode. */
  function RecordsOf(es: seq<(string, Option<Record>)>): Option<map<string, Record>>
  {
    if es == [] then Some(map[])
    else
      var last := es[|es| - 1];
      match RecordsOf(es[..|es| - 1])
      case None => None
      case Some(m) =>
        match last.1
        case None => None
        case Some(r) => Some(m[last.0 := r])
  }

  /** The fold fails exactly when some entry failed to decode. */
  lemma {:induction false} RecordsOfFails(es: seq<(string, Option<Record>)>)
    ensures RecordsOf(es).None? <==> exists k :: 0 <= k < |es| && es[k].1.None?
  {
    if es != [] {
      var init := es[..|es| - 1];
      RecordsOfFails(init);
      if RecordsOf(init).None? {
        var k :| 0 <= k < |init| && init[k].1.None?;
        assert es[k] == init[k];
      } else if exists k :: 0 <= k < |es| && es[k].1.None? {
        var k :| 0 <= k < |es| && es[k].1.None?;
        if k < |init| { assert es[k] == init[k]; }
      }
    }
  }

  /** The map holds exactly the ids of the entries. */
  lemma {:induction false} RecordsOfKeys(es: seq<(string, Option<Record>)>, id: string)
    requires RecordsOf(es).Some?
    ensures id in RecordsOf(es).value <==> exists k :: 0 <= k < |es| && es[k].0 == id
  {
    if es != [] {
      var n := |es| - 1;
      var init := es[..n];
      RecordsOfKeys(init, id);
      if exists k :: 0 <= k < |init| && init[k].0 == id {
        var k :| 0 <= k < |init| && init[k].0 == id;
        assert es[k] == init[k];
      }
      if exists k :: 0 <= k < |es| && es[k].0 == id {
        var k :| 0 <= k < |es| && es[k].0 == id;
        if k < n { assert es[k] == init[k]; }
      }
    }
  }

  /** Under each id the map holds the record of the last entry with that id. */
  lemma {:induction false} RecordsOfLastWins(es: seq<(string, Option<Record>)>, k: nat)
    requires RecordsOf(es).Some? && k < |es|
    requires forall k' :: k < k' < |es| ==> es[k'].0 != es[k].0
    ensures es[k].1.Some? && es[k].0 in RecordsOf(es).value
    ensures RecordsOf(es).value[es[k].0] == es[k].1.value
  {
    var n := |es| - 1;
    var init := es[..n];
    if k < n {
      assert init[k] == es[k];
      assert forall k' :: k < k' < |init| ==> init[k'] == es[k'];
      RecordsOfLastWins(init, k);
    }
  }

  // ------------------------------------------------------------------ sections

  /** Index of the last section marker strictly before offset `pos`: the
      section the source's reversed scan with `break` settles on. */
  function LastSectionBefore(secs: seq<Section>, pos: int): (r: Option<nat>)
    ensures r.Some? ==> r.value < |secs| && secs[r.value].start < pos
    ensures r.Some? ==> forall k :: r.value < k < |secs| ==> secs[k].start >= pos
    ensures r.None? ==> forall k :: 0 <= k < |secs| ==> secs[k].start >= pos
  {
    if secs == [] then None
    else if secs[|secs| - 1].start < pos then Some(|secs| - 1)
    else LastSectionBefore(secs[..|secs| - 1], pos)
  }

  /** The section of a card block starting at `pos`: the name of the last
      marker before it, else `"General"`. */
  function SectionFor(secs: seq<Section>, pos: int): string
  {
    match LastSectionBefore(secs, pos)
    case None => "General"
    case Some(j) => secs[j].name
  }

  /** A card further down the document never falls back to `"General"`
      once an earlier card had a section: a marker before the earlier card is
      before the later one too. */
  lemma NoSectionEarlier(secs: seq<Section>, p: int, q: int)
    requires p <= q && LastSectionBefore(secs, q).None?
    ensures LastSectionBefore(secs, p).None?
  {
  }

  // ------------------------------------------------------------------ cards

  /** What the parser returns about one card, before objects are allocated. */
  datatype CardView = CardView(
    start: nat, id: string, question: string, answer: string, section: string, record: Record)

  /** A block becomes a card only if its extracted question and answer are
      both non-empty after stripping. */
  predicate Accepted(b: Block)
  {
    Extract(b.body, 'Q') != [] && Extract(b.body, 'A') != []
  }

  function ViewOf(b: Block, secs: seq<Section>, recs: map<string, Record>): (v: CardView)
    ensures v.start == b.start
  {
    var id := Strip(b.rawId);
    CardView(b.start, id, Extract(b.body, 'Q'), Extract(b.body, 'A'), SectionFor(secs, b.start),
             if id in recs then recs[id] else DefaultRecord)
  }

  /** What a block contributes: its card if accepted, else nothing. */
  function Candidate(b: Block, secs: seq<Section>, recs: map<string, Record>): Option<CardView>
  {
    if Accepted(b) then Some(ViewOf(b, secs, recs)) else None
  }

  /** What each block contributes, in block order. */
  function Candidates(blocks: seq<Block>, secs: seq<Section>, recs: map<string, Record>): (cs: seq<Option<CardView>>)
    ensures |cs| == |blocks|
  {
    if blocks == [] then []
    else Candidates(blocks[..|blocks| - 1], secs, recs) + [Candidate(blocks[|blocks| - 1], secs, recs)]
  }

  lemma {:induction false} CandidatesAt(blocks: seq<Block>, secs: seq<Section>, recs: map<string, Record>, k: nat)
    requires k < |blocks|
    ensures Candidates(blocks, secs, recs)[k] == Candidate(blocks[k], secs, recs)
  {
    var n := |blocks| - 1;
    if k < n {
      CandidatesAt(blocks[..n], secs, recs, k);
    }
  }

  /** A block's candidate, if any, sits at the block's offset. */
  lemma CandidatesStarts(blocks: seq<Block>, secs: seq<Section>, recs: map<string, Record>)
    ensures forall a :: 0 <= a < |blocks| && Candidates(blocks, secs, recs)[a].Some? ==>
      Candidates(blocks, secs, recs)[a].value.start == blocks[a].start
  {
    forall a | 0 <= a < |blocks| && Candidates(blocks, secs, recs)[a].Some?
      ensures Candidates(blocks, secs, recs)[a].value.start == blocks[a].start
    {
      CandidatesAt(blocks, secs, recs, a);
    }
  }

  /** The present candidates, in order. */
  function Present(cs: seq<Option<CardView>>): seq<CardView>
  {
    if cs == [] then []
    else Present(cs[..|cs| - 1]) + (if cs[|cs| - 1].Some? then [cs[|cs| - 1].value] else [])
  }

  /** The result of parsing a text: the cards and the `rep_data` map, or
      `None` where the source raises. */
  function ParseSpec(t: string): Option<(seq<CardView>, map<string, Record>)>
  {
    match RecordsOf(Entries(RepTokens(t)))
    case None => None
    case Some(recs) => Some((Present(Candidates(Blocks(t), Sections(t), recs)), recs))
  }

  /** The present values are exactly the candidates that are there. */
  lemma {:induction false} PresentExactly(cs: seq<Option<CardView>>, v: CardView)
    ensures v in Present(cs) <==> exists k :: 0 <= k < |cs| && cs[k] == Some(v)
  {
    if cs != [] {
      var n := |cs| - 1;
      var init := cs[..n];
      PresentExactly(init, v);
      if exists k :: 0 <= k < |init| && init[k] == Some(v) {
        var k :| 0 <= k < |init| && init[k] == Some(v);
        assert cs[k] == init[k];
      }
      if exists k :: 0 <= k < |cs| && cs[k] == Some(v) {
        var k :| 0 <= k < |cs| && cs[k] == Some(v);
        if k < n { assert cs[k] == init[k]; }
      }
    }
  }

  /** Present values keep the candidates' order: offsets that increase along
      the candidates increase along the result. */
  lemma {:induction false} PresentOrdered(cs: seq<Option<CardView>>)
    requires forall a, b :: 0 <= a < b < |cs| && cs[a].Some? && cs[b].Some? ==> cs[a].value.start < cs[b].value.start
    ensures forall a, b :: 0 <= a < b < |Present(cs)| ==> Present(cs)[a].start < Present(cs)[b].start
  {
    if cs != [] {
      var n := |cs| - 1;
      var init := cs[..n];
      PresentOrdered(init);
      var vs0 := Present(init);
      if cs[n].Some? {
        forall a | 0 <= a < |vs0| ensures vs0[a].start < cs[n].value.start {
          PresentExactly(init, vs0[a]);
          var k :| 0 <= k < |init| && init[k] == Some(vs0[a]);
          assert cs[k] == init[k];
        }
      }
    }
  }

  /** Candidates at distinct offsets: a present value stands for the one
      candidate at its offset. */
  lemma PresentAt(cs: seq<Option<CardView>>, starts: seq<int>, k: nat, v: CardView)
    requires |starts| == |cs| && k < |cs| && v.start == starts[k]
    requires forall a, b :: 0 <= a < b < |starts| ==> starts[a] < starts[b]
    requires forall a :: 0 <= a < |cs| && cs[a].Some? ==> cs[a].value.start == starts[a]
    ensures v in Present(cs) <==> cs[k] == Some(v)
  {
    PresentExactly(cs, v);
  }

  /** The parsed cards of a text come out in document order. */
  lemma ParseSpecOrdered(t: string)
    requires ParseSpec(t).Some?
    ensures forall a, b :: 0 <= a < b < |ParseSpec(t).value.0| ==>
      ParseSpec(t).value.0[a].start < ParseSpec(t).value.0[b].start
  {
    var recs := ParseSpec(t).value.1;
    BlocksIncreasing(t, 0);
    CandidatesStarts(Blocks(t), Sections(t), recs);
    PresentOrdered(Candidates(Blocks(t), Sections(t), recs));
  }

  /** A card block of the text yields a card exactly when it is accepted. */
  lemma ParseSpecBlock(t: string, k: nat)
    requires ParseSpec(t).Some? && k < |Blocks(t)|
    ensures var (vs, recs) := ParseSpec(t).value;
      ViewOf(Blocks(t)[k], Sections(t), recs) in vs <==> Accepted(Blocks(t)[k])
  {
    BlocksIncreasing(t, 0);
    BlockPresent(Blocks(t), Sections(t), ParseSpec(t).value.1, k);
  }

  /** Among blocks at increasing offsets, the card of block `k` is present
      exactly when that block is accepted. */
  lemma BlockPresent(blocks: seq<Block>, secs: seq<Section>, recs: map<string, Record>, k: nat)
    requires k < |blocks|
    requires forall a, b :: 0 <= a < b < |blocks| ==> blocks[a].start < blocks[b].start
    ensures ViewOf(blocks[k], secs, recs) in Present(Candidates(blocks, secs, recs)) <==> Accepted(blocks[k])
  {
    var cs := Candidates(blocks, secs, recs);
    var starts := seq(|blocks|, j requires 0 <= j < |blocks| => blocks[j].start);
    CandidatesStarts(blocks, secs, recs);
    CandidatesAt(blocks, secs, recs, k);
    PresentAt(cs, starts, k, ViewOf(blocks[k], secs, recs));
  }

  /** Every parsed card is the card of an accepted block. */
  lemma ParseSpecFromBlock(t: string, v: CardView)
    requires ParseSpec(t).Some? && v in ParseSpec(t).value.0
    ensures exists k :: 0 <= k < |Blocks(t)| && Accepted(Blocks(t)[k]) && v == ViewOf(Blocks(t)[k], Sections(t), ParseSpec(t).value.1)
  {
    var cs := Candidates(Blocks(t), Sections(t), ParseSpec(t).value.1);
    PresentExactly(cs, v);
    var k :| 0 <= k < |cs| && cs[k] == Some(v);
    CandidatesAt(Blocks(t), Sections(t), ParseSpec(t).value.1, k);
  }

  /** The fields of each parsed card: both texts non-empty, the section of the
      last marker before the block (or `"General"`), the record under its id
      or the default one. */
  lemma ParseSpecFields(t: string, v: CardView)
    requires ParseSpec(t).Some? && v in ParseSpec(t).value.0
    ensures v.question != [] && v.answer != []
    ensures v.section == SectionFor(Sections(t), v.start)
    ensures var recs := ParseSpec(t).value.1;
      v.record == if v.id in recs then recs[v.id] else DefaultRecord
  {
    var recs := ParseSpec(t).value.1;
    var cs := Candidates(Blocks(t), Sections(t), recs);
    PresentExactly(cs, v);
    var k :| 0 <= k < |cs| && cs[k] == Some(v);
    CandidatesAt(Blocks(t), Sections(t), recs, k);
  }

  // ------------------------------------------------------------------ the parser

  /** A card as the parser built it agrees with its view. */
  predicate Agrees(c: FlashCard, v: CardView, filepath: string)
    reads c.rep
  {
    c.id == v.id && c.question == v.question && c.answer == v.answer
    && c.section == v.section && c.sourceFile == filepath && c.rep.Value() == v.record
  }

  /** Extending the candidates by one extends the result by that candidate,
      if present. */
  lemma PresentStep(cs: seq<Option<CardView>>, i: nat)
    requires i < |cs|
    ensures Present(cs[..i + 1]) == Present(cs[..i]) + (if cs[i].Some? then [cs[i].value] else [])
  {
    assert cs[..i + 1][..i] == cs[..i];
  }

  /** The token loop of `parse_flashcard_file`: each payload decoded into a
      fresh object stored under its id, a later token replacing an earlier
      one; `ok` is false where `from_string` raises. */
  method ReadRepData(tokens: seq<RepToken>) returns (ok: bool, repData: map<string, RepetitionData>)
    ensures ok <==> RecordsOf(Entries(tokens)).Some?
    ensures ok ==> repData.Keys == RecordsOf(Entries(tokens)).value.Keys
    ensures ok ==> forall id :: id in repData ==>
      fresh(repData[id]) && repData[id].Value() == RecordsOf(Entries(tokens)).value[id]
  {
    repData := map[];
    ghost var es := Entries(tokens);
    var i := 0;
    while i < |tokens|
      invariant 0 <= i <= |tokens|
      invariant RecordsOf(es[..i]).Some?
      invariant repData.Keys == RecordsOf(es[..i]).value.Keys
      invariant forall id :: id in repData ==> fresh(repData[id]) && repData[id].Value() == RecordsOf(es[..i]).value[id]
    {
      assert es[..i + 1][..i] == es[..i];
      var rec := RepetitionData.FromString(tokens[i].payload);
      if rec.None? {
        RecordsOfFails(es);
        assert es[i].1.None?;
        return false, map[];
      }
      repData := repData[tokens[i].id := rec.value];
      i := i + 1;
    }
    assert es[..i] == es;
    ok := true;
  }

  /** The reversed scan over the section markers for a block at `pos`: the
      name of the last marker before it, or `current` when there is none. */
  method FindSection(secs: seq<Section>, pos: nat, current: string, ghost prev: int) returns (section: string)
    requires prev <= pos && current == SectionFor(secs, prev)
    ensures section == match LastSectionBefore(secs, pos)
      case None => current
      case Some(j) => secs[j].name
    ensures section == SectionFor(secs, pos)
  {
    section := current;
    var j := |secs|;
    while j > 0
      invariant 0 <= j <= |secs|
      invariant forall k :: j <= k < |secs| ==> secs[k].start >= pos
      invariant section == current
    {
      if secs[j - 1].start < pos {
        section := secs[j - 1].name;
        assert LastSectionBefore(secs, pos) == Some(j - 1);
        break;
      }
      j := j - 1;
    }
    if LastSectionBefore(secs, pos).None? {
      NoSectionEarlier(secs, prev, pos);
    }
  }

  /** One turn of the block loop of `parse_flashcard_file`, once the section
      is known: the stripped id, question and answer of the block, and a card
      if both texts are non-empty. The card shares the object of its id's
      record, or else gets a fresh default object. */
  method MakeCard(blocks: seq<Block>, i: nat, secs: seq<Section>, section: string,
                  repData: map<string, RepetitionData>, ghost recs: map<string, Record>, filepath: string)
    returns (card: Option<FlashCard>)
    requires i < |blocks| && section == SectionFor(secs, blocks[i].start)
    requires repData.Keys == recs.Keys
    requires forall id :: id in repData ==> repData[id].Value() == recs[id]
    ensures card.Some? <==> Candidates(blocks, secs, recs)[i].Some?
    ensures card.Some? ==> Agrees(card.value, Candidates(blocks, secs, recs)[i].value, filepath)
    ensures card.Some? && card.value.id in repData ==> card.value.rep == repData[card.value.id]
    ensures card.Some? && card.value.id !in repData ==> fresh(card.value.rep)
  {
    CandidatesAt(blocks, secs, recs, i);
    var b := blocks[i];
    var cardId := Strip(b.rawId);
    var question := Extract(b.body, 'Q');
    var answer := Extract(b.body, 'A');
    card := None;
    if question != [] && answer != [] {
      var rep: RepetitionData;
      if cardId in repData {
        rep := repData[cardId];
      } else {
        rep := new RepetitionData.Default();
      }
      card := Some(FlashCard(cardId, question, answer, section, filepath, rep));
    }
  }

  /** The block loop of `parse_flashcard_file`: every accepted block becomes a
      card, in order, with the section carried along the document. A card
      whose id has a record shares that record's object; any other card gets
      a fresh default object. */
  method BuildCards(blocks: seq<Block>, secs: seq<Section>, repData: map<string, RepetitionData>,
                    ghost recs: map<string, Record>, filepath: string)
    returns (cards: seq<FlashCard>)
    requires forall a, b :: 0 <= a < b < |blocks| ==> blocks[a].start < blocks[b].start
    requires repData.Keys == recs.Keys
    requires forall id :: id in repData ==> repData[id].Value() == recs[id]
    ensures |cards| == |Present(Candidates(blocks, secs, recs))|
    ensures forall k :: 0 <= k < |cards| ==> Agrees(cards[k], Present(Candidates(blocks, secs, recs))[k], filepath)
    ensures forall k :: 0 <= k < |cards| && cards[k].id in repData ==> cards[k].rep == repData[cards[k].id]
    ensures forall k :: 0 <= k < |cards| && cards[k].id !in repData ==> fresh(cards[k].rep)
  {
    cards := [];
    ghost var cs := Candidates(blocks, secs, recs);
    ghost var vs: seq<CardView> := [];
    var currentSection := "General";
    ghost var prev: int := -1;
    var i := 0;
    while i < |blocks|
      invariant 0 <= i <= |blocks|
      invariant currentSection == SectionFor(secs, prev)
      invariant if i == 0 then prev == -1 else prev == blocks[i - 1].start
      invariant vs == Present(cs[..i]) && |cards| == |vs|
      invariant forall id :: id in repData ==> allocated(repData[id])
      invariant forall k :: 0 <= k < |cards| ==> allocated(cards[k].rep)
      invariant forall k :: 0 <= k < |cards| ==>
        Agrees(cards[k], vs[k], filepath)
        && (cards[k].id in repData ==> cards[k].rep == repData[cards[k].id])
        && (cards[k].id !in repData ==> fresh(cards[k].rep))
    {
      var b := blocks[i];
      currentSection := FindSection(secs, b.start, currentSection, prev);
      prev := b.start;
      var card := MakeCard(blocks, i, secs, currentSection, repData, recs, filepath);
      PresentStep(cs, i);
      if card.Some? {
        cards := cards + [card.value];
        vs := vs + [cs[i].value];
      }
      i := i + 1;
    }
    assert cs[..i] == cs;
  }

  /** `parse_flashcard_file` on the text `content` of the file `filepath`.
      On success, the cards agree one by one with the parsed views and the
      objects hold the parsed records; cards of an id that has a token share
      that token's object, every other card has a fresh default object.
      `ok` is false where the source raises. */
  method ParseFlashcardFile(content: string, filepath: string)
    returns (ok: bool, cards: seq<FlashCard>, repData: map<string, RepetitionData>)
    ensures ok <==> ParseSpec(content).Some?
    ensures ok ==> repData.Keys == ParseSpec(content).value.1.Keys
    ensures ok ==> forall id :: id in repData ==>
      fresh(repData[id]) && repData[id].Value() == ParseSpec(content).value.1[id]
    ensures ok ==> |cards| == |ParseSpec(content).value.0|
    ensures ok ==> forall k :: 0 <= k < |cards| ==>
      Agrees(cards[k], ParseSpec(content).value.0[k], filepath) && fresh(cards[k].rep)
    ensures ok ==> forall k :: 0 <= k < |cards| && cards[k].id in repData ==> cards[k].rep == repData[cards[k].id]
    ensures ok ==> forall k :: 0 <= k < |cards| && cards[k].id !in repData ==>
      forall id :: id in repData ==> repData[id] != cards[k].rep
  {
    cards := [];
    ok, repData := ReadRepData(RepTokens(content));
    if !ok {
      return;
    }
    ghost var recs := RecordsOf(Entries(RepTokens(content))).value;
    var secs := Sections(content);
    var blocks := Blocks(content);
    BlocksIncreasing(content, 0);
    cards := BuildCards(blocks, secs, repData, recs, filepath);
    assert ParseSpec(content) == Some((Present(Candidates(blocks, secs, recs)), recs));
  }
}
