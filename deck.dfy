/** `FlashCardDeck` and the functions that fill and save it: the section,
    due-card and id queries, loading the cards of several documents in order,
    and saving each document's records back into its text. Files are given
    as text: a load gets each file's path and content, a save gets the
    current content of every file and gives the new one. */
module Deck {
  import opened Text
  import opened Dates
  import opened Schedule
  import opened Cards
  import opened Parser
  import opened Rewriter
  import Scan

  // ------------------------------------------------------------ string order

  /** Python's `<` on strings: code point by code point, a proper prefix first. */
  predicate StrLess(a: string, b: string)
    decreases |a|
  {
    if a == [] then b != []
    else if b == [] then false
    else a[0] < b[0] || (a[0] == b[0] && StrLess(a[1..], b[1..]))
  }

  lemma {:induction false} StrLessIrreflexive(a: string)
    ensures !StrLess(a, a)
    decreases |a|
  {
    if a != [] { StrLessIrreflexive(a[1..]); }
  }

  /** Two different strings are ordered one way or the other. */
  lemma {:induction false} StrLessTotal(a: string, b: string)
    ensures a == b || StrLess(a, b) || StrLess(b, a)
    decreases |a|
  {
    if a != [] && b != [] && a[0] == b[0] {
      StrLessTotal(a[1..], b[1..]);
      if a[1..] == b[1..] {
        assert a == [a[0]] + a[1..] && b == [b[0]] + b[1..];
      }
    }
  }

  lemma {:induction false} StrLessTransitive(a: string, b: string, c: string)
    requires StrLess(a, b) && StrLess(b, c)
    ensures StrLess(a, c)
    decreases |a|
  {
    if a != [] && a[0] == b[0] && b[0] == c[0] {
      StrLessTransitive(a[1..], b[1..], c[1..]);
    }
  }

  /** Strictly increasing: sorted, and so without duplicates. */
  predicate StrictlySorted(s: seq<string>)
  {
    forall a, b :: 0 <= a < b < |s| ==> StrLess(s[a], s[b])
  }

  lemma SortedCons(x: string, s: seq<string>)
    requires StrictlySorted(s) && (s != [] ==> StrLess(x, s[0]))
    ensures StrictlySorted([x] + s)
  {
    var r := [x] + s;
    forall a, b | 0 <= a < b < |r| ensures StrLess(r[a], r[b]) {
      if a == 0 && b > 1 { StrLessTransitive(x, s[0], s[b - 1]); }
    }
  }

  /** `x` put into its place in a strictly sorted list, unless already there. */
  function InsertSorted(x: string, s: seq<string>): (r: seq<string>)
    requires StrictlySorted(s)
    ensures StrictlySorted(r)
    ensures forall y :: y in r <==> y == x || y in s
  {
    if s == [] then [x]
    else if x == s[0] then s
    else if StrLess(x, s[0]) then SortedCons(x, s); [x] + s
    else
      var rest := InsertSorted(x, s[1..]);
      StrLessTotal(x, s[0]);
      assert forall y :: y in rest ==> StrLess(s[0], y) by {
        forall y | y in rest ensures StrLess(s[0], y) {
          if y != x {
            var k :| 0 <= k < |s[1..]| && s[1..][k] == y;
            assert s[k + 1] == y;
          }
        }
      }
      SortedCons(s[0], rest);
      [s[0]] + rest
  }

  /** `sorted(set(xs))`: the distinct strings of `xs` in increasing order. */
  function SortedSet(xs: seq<string>): (r: seq<string>)
    ensures StrictlySorted(r)
    ensures forall y :: y in r <==> y in xs
  {
    if xs == [] then []
    else
      var init := xs[..|xs| - 1];
      assert xs == init + [xs[|xs| - 1]];
      InsertSorted(xs[|xs| - 1], SortedSet(init))
  }

  // ------------------------------------------------------------- selections

  /** The positions of `keep` that hold `true`, in increasing order. */
  function Indices(keep: seq<bool>): (idx: seq<nat>)
    ensures forall a, b :: 0 <= a < b < |idx| ==> idx[a] < idx[b]
    ensures forall k :: 0 <= k < |idx| ==> idx[k] < |keep| && keep[idx[k]]
    ensures forall j :: 0 <= j < |keep| && keep[j] ==> j in idx
  {
    if keep == [] then []
    else
      var n := |keep| - 1;
      var init := Indices(keep[..n]);
      assert forall k :: 0 <= k < |init| ==> keep[init[k]] == keep[..n][init[k]];
      init + if keep[n] then [n] else []
  }

  /** The list comprehension `[x for x in xs if ...]`, the condition given as
      one flag per element: the kept elements, in their order. */
  function Select<T>(xs: seq<T>, keep: seq<bool>): (r: seq<T>)
    requires |keep| == |xs|
    ensures |r| == |Indices(keep)|
    ensures forall k :: 0 <= k < |r| ==> r[k] == xs[Indices(keep)[k]]
  {
    if xs == [] then []
    else
      var n := |xs| - 1;
      assert keep[..n] == keep[..|keep| - 1];
      Select(xs[..n], keep[..n]) + if keep[n] then [xs[n]] else []
  }

  /** An element is selected exactly when it sits at a kept position. */
  lemma SelectMembers<T>(xs: seq<T>, keep: seq<bool>, x: T)
    requires |keep| == |xs|
    ensures x in Select(xs, keep) <==> exists j :: 0 <= j < |xs| && keep[j] && xs[j] == x
  {
    var r, idx := Select(xs, keep), Indices(keep);
    if x in r {
      var k :| 0 <= k < |r| && r[k] == x;
      assert keep[idx[k]] && xs[idx[k]] == x;
    }
    if exists j :: 0 <= j < |xs| && keep[j] && xs[j] == x {
      var j :| 0 <= j < |xs| && keep[j] && xs[j] == x;
      var k :| 0 <= k < |idx| && idx[k] == j;
      assert r[k] == x;
    }
  }

  /** Every kept element is selected. */
  lemma SelectKept<T>(xs: seq<T>, keep: seq<bool>)
    requires |keep| == |xs|
    ensures forall j :: 0 <= j < |xs| && keep[j] ==> xs[j] in Select(xs, keep)
  {
    forall j | 0 <= j < |xs| && keep[j] ensures xs[j] in Select(xs, keep) {
      SelectMembers(xs, keep, xs[j]);
    }
  }

  function SectionMask(cards: seq<FlashCard>, section: string): (m: seq<bool>)
    ensures |m| == |cards| && forall k :: 0 <= k < |cards| ==> (m[k] <==> cards[k].section == section)
  {
    seq(|cards|, k requires 0 <= k < |cards| => cards[k].section == section)
  }

  /** The repetition records the cards refer to. */
  function Reps(cards: seq<FlashCard>): set<RepetitionData>
  {
    set c | c in cards :: c.rep
  }

  /** Every card's last review is a real day, as every Python `date` is. */
  predicate ReviewDatesValid(cards: seq<FlashCard>)
    reads Reps(cards)
  {
    forall c :: c in cards ==> (c.rep.lastReview.Some? ==> WellFormed(c.rep.lastReview.value))
  }

  function DueMask(cards: seq<FlashCard>, today: Date): (m: seq<bool>)
    reads Reps(cards)
    requires ReviewDatesValid(cards)
    ensures |m| == |cards| && forall k :: 0 <= k < |cards| ==> (m[k] <==> CardIsDue(cards[k], today))
  {
    if cards == [] then []
    else
      var n := |cards| - 1;
      assert forall c :: c in cards[..n] ==> c in cards;
      DueMask(cards[..n], today) + [CardIsDue(cards[n], today)]
  }

  /** The selection by the due flags holds exactly the due cards. */
  lemma DueSelected(cards: seq<FlashCard>, today: Date, r: seq<FlashCard>)
    requires ReviewDatesValid(cards) && r == Select(cards, DueMask(cards, today))
    ensures forall k :: 0 <= k < |r| ==> r[k] in cards && CardIsDue(r[k], today)
    ensures forall k :: 0 <= k < |cards| && CardIsDue(cards[k], today) ==> cards[k] in r
  {
    var mask := DueMask(cards, today);
    SelectKept(cards, mask);
    forall k | 0 <= k < |r| ensures r[k] in cards && CardIsDue(r[k], today) {
      var j := Indices(mask)[k];
      assert r[k] == cards[j] && mask[j];
    }
  }

  /** The cards of `filepath`, in deck order: the list `save_deck` builds
      for it. */
  function GroupOf(cards: seq<FlashCard>, filepath: string): seq<FlashCard>
  {
    if cards == [] then []
    else
      var n := |cards| - 1;
      GroupOf(cards[..n], filepath) + if cards[n].sourceFile == filepath then [cards[n]] else []
  }

  /** A file's group holds exactly the cards read from that file. */
  lemma {:induction false} GroupOfMembers(cards: seq<FlashCard>, filepath: string)
    ensures forall k :: 0 <= k < |GroupOf(cards, filepath)| ==>
      GroupOf(cards, filepath)[k] in cards && GroupOf(cards, filepath)[k].sourceFile == filepath
    ensures forall k :: 0 <= k < |cards| && cards[k].sourceFile == filepath ==> cards[k] in GroupOf(cards, filepath)
  {
    if cards != [] {
      var n := |cards| - 1;
      GroupOfMembers(cards[..n], filepath);
      assert cards == cards[..n] + [cards[n]];
      assert forall k :: 0 <= k < n ==> cards[k] == cards[..n][k];
    }
  }

  lemma GroupOfSnoc(cards: seq<FlashCard>, c: FlashCard, filepath: string)
    ensures GroupOf(cards + [c], filepath)
      == GroupOf(cards, filepath) + if c.sourceFile == filepath then [c] else []
  {
    assert (cards + [c])[..|cards|] == cards;
  }

  // -------------------------------------------------------------- the deck

  class FlashCardDeck {
    var cards: seq<FlashCard>
    var sourceFiles: seq<string>

    /** `FlashCardDeck()`: no cards, no files. */
    constructor ()
      ensures cards == [] && sourceFiles == []
    {
      cards, sourceFiles := [], [];
    }

    /** `get_sections()`: every section of a card, once each, in increasing
        order. */
    function GetSections(): (r: seq<string>)
      reads this
      ensures StrictlySorted(r)
      ensures forall s :: s in r <==> exists k :: 0 <= k < |cards| && cards[k].section == s
    {
      var cs := cards;
      var names := seq(|cs|, k requires 0 <= k < |cs| => cs[k].section);
      assert forall s :: s in names <==> exists k :: 0 <= k < |cards| && cards[k].section == s by {
        forall s | s in names ensures exists k :: 0 <= k < |cards| && cards[k].section == s {
          var k :| 0 <= k < |names| && names[k] == s;
          assert cards[k].section == s;
        }
        forall s | exists k :: 0 <= k < |cards| && cards[k].section == s ensures s in names {
          var k :| 0 <= k < |cards| && cards[k].section == s;
          assert names[k] == s;
        }
      }
      SortedSet(names)
    }

    /** `filter_by_section(section)`: exactly the cards of that section, in
        deck order. */
    function FilterBySection(section: string): (r: seq<FlashCard>)
      reads this
      ensures forall k :: 0 <= k < |r| ==> r[k] in cards && r[k].section == section
      ensures forall k :: 0 <= k < |cards| && cards[k].section == section ==> cards[k] in r
      ensures |r| == |Indices(SectionMask(cards, section))|
      ensures forall k :: 0 <= k < |r| ==> r[k] == cards[Indices(SectionMask(cards, section))[k]]
    {
      var mask := SectionMask(cards, section);
      var r := Select(cards, mask);
      SelectKept(cards, mask);
      r
    }

    /** `get_due_cards()`, with today's date passed in: exactly the due
        cards, in deck order. */
    function GetDueCards(today: Date): (r: seq<FlashCard>)
      reads this, Reps(cards)
      requires ReviewDatesValid(cards)
      ensures forall k :: 0 <= k < |r| ==> r[k] in cards && CardIsDue(r[k], today)
      ensures forall k :: 0 <= k < |cards| && CardIsDue(cards[k], today) ==> cards[k] in r
      ensures |r| == |Indices(DueMask(cards, today))|
      ensures forall k :: 0 <= k < |r| ==> r[k] == cards[Indices(DueMask(cards, today))[k]]
    {
      var mask := DueMask(cards, today);
      var r := Select(cards, mask);
      DueSelected(cards, today, r);
      r
    }

    /** `get_card_by_id(card_id)`: the first card with that id, or none. */
    method GetCardById(cardId: string) returns (r: Option<FlashCard>)
      ensures r.Some? ==> exists k :: 0 <= k < |cards| && cards[k] == r.value && cards[k].id == cardId
                                     && forall j :: 0 <= j < k ==> cards[j].id != cardId
      ensures r.None? ==> forall k :: 0 <= k < |cards| ==> cards[k].id != cardId
    {
      var i := 0;
      while i < |cards|
        invariant 0 <= i <= |cards|
        invariant forall j :: 0 <= j < i ==> cards[j].id != cardId
      {
        if cards[i].id == cardId {
          return Some(cards[i]);
        }
        i := i + 1;
      }
      return None;
    }
  }

  // ------------------------------------------------------------ loading

  /** The cards `parse_flashcard_file` returns for a text, or `None` where it
      raises. */
  function ParsedCards(content: string): Option<seq<CardView>>
  {
    match ParseSpec(content)
    case None => None
    case Some((cs, _)) => Some(cs)
  }

  /** The ids of a sequence of metadata tokens. */
  function TokenIds(toks: seq<Scan.RepToken>): (ids: set<string>)
    ensures forall k :: 0 <= k < |toks| ==> toks[k].id in ids
  {
    if toks == [] then {} else TokenIds(toks[..|toks| - 1]) + {toks[|toks| - 1].id}
  }

  /** The ids of a text's metadata tokens: where the text parses, the ids
      that have a stored record. */
  function StoredIds(content: string): set<string>
  {
    TokenIds(Scan.RepTokens(content))
  }

  /** The keys of the `rep_data` dictionary are the ids of the tokens. */
  lemma StoredIdsKeys(content: string)
    requires ParseSpec(content).Some?
    ensures ParseSpec(content).value.1.Keys == StoredIds(content)
  {
    TokenIdsKeys(Scan.RepTokens(content));
  }

  lemma {:induction false} TokenIdsKeys(toks: seq<Scan.RepToken>)
    requires RecordsOf(Entries(toks)).Some?
    ensures RecordsOf(Entries(toks)).value.Keys == TokenIds(toks)
    decreases |toks|
  {
    if toks != [] {
      var n := |toks| - 1;
      var es := Entries(toks);
      assert es[..n] == Entries(toks[..n]);
      TokenIdsKeys(toks[..n]);
    }
  }

  /** How the cards parsed from one text share record objects: cards whose
      id has a stored record share that record's object, and a card without
      a stored record shares none with a card that has one. */
  predicate SharesAsParsed(cards: seq<FlashCard>, stored: set<string>)
  {
    && (forall a, b ::
          0 <= a < |cards| && 0 <= b < |cards| && cards[a].id == cards[b].id && cards[a].id in stored ==>
          cards[a].rep == cards[b].rep)
    && (forall a, b ::
          0 <= a < |cards| && 0 <= b < |cards| && cards[a].id in stored && cards[b].id !in stored ==>
          cards[a].rep != cards[b].rep)
  }

  /** Each file's path with the outcome of parsing its text. */
  function Outcomes(files: seq<(string, string)>): (os: seq<(string, Option<seq<CardView>>)>)
    ensures |os| == |files|
  {
    seq(|files|, k requires 0 <= k < |files| => (files[k].0, ParsedCards(files[k].1)))
  }

  /** Cards tagged with the path of their file. */
  function Tagged(cs: seq<CardView>, path: string): (ts: seq<(CardView, string)>)
    ensures |ts| == |cs| && forall k :: 0 <= k < |cs| ==> ts[k] == (cs[k], path)
  {
    seq(|cs|, k requires 0 <= k < |cs| => (cs[k], path))
  }

  /** The cards of the files, in file order and, within a file, in document
      order, each with the path of its file; `None` where one of the files
      failed to parse. */
  function LoadViews(outcomes: seq<(string, Option<seq<CardView>>)>): Option<seq<(CardView, string)>>
  {
    if outcomes == [] then Some([])
    else
      var n := |outcomes| - 1;
      match LoadViews(outcomes[..n])
      case None => None
      case Some(vs) =>
        match outcomes[n].1
        case None => None
        case Some(cs) => Some(vs + Tagged(cs, outcomes[n].0))
  }

  /** Loading fails exactly when one of the files fails to parse. */
  lemma {:induction false} LoadViewsFails(outcomes: seq<(string, Option<seq<CardView>>)>)
    ensures LoadViews(outcomes).None? <==> exists f :: 0 <= f < |outcomes| && outcomes[f].1.None?
  {
    if outcomes != [] {
      var n := |outcomes| - 1;
      var init := outcomes[..n];
      LoadViewsFails(init);
      if exists f :: 0 <= f < |init| && init[f].1.None? {
        var f :| 0 <= f < |init| && init[f].1.None?;
        assert outcomes[f] == init[f];
      }
      if exists f :: 0 <= f < |outcomes| && outcomes[f].1.None? {
        var f :| 0 <= f < |outcomes| && outcomes[f].1.None?;
        if f < n { assert outcomes[f] == init[f]; }
      }
    }
  }

  /** Each loaded card is a card parsed from a file with the path it
      carries, and every card parsed from a file is loaded with that path. */
  lemma {:induction false} LoadViewsFrom(outcomes: seq<(string, Option<seq<CardView>>)>, v: CardView, path: string)
    requires LoadViews(outcomes).Some?
    ensures (v, path) in LoadViews(outcomes).value <==>
      exists f :: 0 <= f < |outcomes| && outcomes[f].0 == path && outcomes[f].1.Some? && v in outcomes[f].1.value
  {
    if outcomes != [] {
      var n := |outcomes| - 1;
      var init := outcomes[..n];
      LoadViewsFrom(init, v, path);
      var cs := outcomes[n].1.value;
      var tagged := Tagged(cs, outcomes[n].0);
      assert LoadViews(outcomes).value == LoadViews(init).value + tagged;
      assert (v, path) in tagged <==> outcomes[n].0 == path && v in cs by {
        if (v, path) in tagged {
          var k :| 0 <= k < |tagged| && tagged[k] == (v, path);
        }
        if outcomes[n].0 == path && v in cs {
          var k :| 0 <= k < |cs| && cs[k] == v;
          assert tagged[k] == (v, path);
        }
      }
      if exists f :: 0 <= f < |init| && init[f].0 == path && init[f].1.Some? && v in init[f].1.value {
        var f :| 0 <= f < |init| && init[f].0 == path && init[f].1.Some? && v in init[f].1.value;
        assert outcomes[f] == init[f];
      }
      if exists f :: 0 <= f < |outcomes| && outcomes[f].0 == path && outcomes[f].1.Some? && v in outcomes[f].1.value {
        var f :| 0 <= f < |outcomes| && outcomes[f].0 == path && outcomes[f].1.Some? && v in outcomes[f].1.value;
        if f < n { assert outcomes[f] == init[f]; }
      }
    }
  }

  function Paths(files: seq<(string, string)>): (ps: seq<string>)
    ensures |ps| == |files| && forall k :: 0 <= k < |files| ==> ps[k] == files[k].0
  {
    seq(|files|, k requires 0 <= k < |files| => files[k].0)
  }

  /** Loading one more file appends its cards, tagged with its path. */
  lemma LoadStep(files: seq<(string, string)>, i: nat, cs: seq<CardView>)
    requires i < |files| && LoadViews(Outcomes(files[..i])).Some? && ParsedCards(files[i].1) == Some(cs)
    ensures LoadViews(Outcomes(files[..i + 1])) == Some(LoadViews(Outcomes(files[..i])).value + Tagged(cs, files[i].0))
  {
    OutcomesSnoc(files, i);
    LoadViewsSnoc(Outcomes(files[..i]), (files[i].0, ParsedCards(files[i].1)));
  }

  lemma OutcomesSnoc(files: seq<(string, string)>, i: nat)
    requires i < |files|
    ensures Outcomes(files[..i + 1]) == Outcomes(files[..i]) + [(files[i].0, ParsedCards(files[i].1))]
  {
    var pre, all := files[..i], files[..i + 1];
    assert all == pre + [files[i]];
    OutcomesAppend(pre, files[i]);
  }

  lemma OutcomesAppend(pre: seq<(string, string)>, f: (string, string))
    ensures Outcomes(pre + [f]) == Outcomes(pre) + [(f.0, ParsedCards(f.1))]
  {
    var a, b := Outcomes(pre + [f]), Outcomes(pre) + [(f.0, ParsedCards(f.1))];
    forall k | 0 <= k < |a| ensures a[k] == b[k] {
      if k < |pre| { assert (pre + [f])[k] == pre[k]; }
    }
  }

  lemma LoadViewsSnoc(os: seq<(string, Option<seq<CardView>>)>, o: (string, Option<seq<CardView>>))
    requires LoadViews(os).Some? && o.1.Some?
    ensures LoadViews(os + [o]) == Some(LoadViews(os).value + Tagged(o.1.value, o.0))
  {
    assert (os + [o])[..|os|] == os;
  }

  lemma PathsStep(files: seq<(string, string)>, i: nat)
    requires i < |files|
    ensures Paths(files[..i + 1]) == Paths(files[..i]) + [files[i].0]
  {
  }

  /** Loading stops at a file that fails to parse. */
  lemma LoadFail(files: seq<(string, string)>, i: nat)
    requires i < |files| && ParsedCards(files[i].1).None?
    ensures LoadViews(Outcomes(files)).None?
  {
    LoadViewsFails(Outcomes(files));
    assert Outcomes(files)[i].1.None?;
  }

  /** `parse_flashcard_file` as the load uses it: the cards only. */
  method ParseCards(content: string, filepath: string, ghost earlier: seq<FlashCard>,
                    ghost earlierViews: seq<(CardView, string)>)
    returns (ok: bool, cards: seq<FlashCard>)
    ensures ok <==> ParsedCards(content).Some?
    ensures ok ==> |cards| == |ParsedCards(content).value|
    ensures ok ==> forall k :: 0 <= k < |cards| ==> Agrees(cards[k], ParsedCards(content).value[k], filepath)
    ensures ok ==> forall k :: 0 <= k < |cards| ==> fresh(cards[k].rep)
    ensures ok ==> SharesAsParsed(cards, StoredIds(content))
    ensures ok ==> forall a, k :: 0 <= a < |earlier| && 0 <= k < |cards| ==> earlier[a].rep != cards[k].rep
    ensures ok && old(AgreeAll(earlier, earlierViews)) ==>
              AgreeAll(earlier + cards, earlierViews + Tagged(ParsedCards(content).value, filepath))
  {
    var repData;
    ok, cards, repData := ParseFlashcardFile(content, filepath);
    if ok {
      StoredIdsKeys(content);
      if old(AgreeAll(earlier, earlierViews)) {
        AgreeAppend(earlier, earlierViews, cards, ParsedCards(content).value, filepath);
      }
    }
  }

  /** For each file, the ids of its text that have a stored record. */
  function StoredSets(files: seq<(string, string)>): (ss: seq<set<string>>)
    ensures |ss| == |files|
  {
    seq(|files|, k requires 0 <= k < |files| => StoredIds(files[k].1))
  }

  /** `stored` lists the stored ids of the files, one set per file. */
  predicate StoredMatch(stored: seq<set<string>>, files: seq<(string, string)>)
    decreases |files|
  {
    |stored| == |files|
    && (files != [] ==>
          StoredMatch(stored[..|stored| - 1], files[..|files| - 1])
          && stored[|stored| - 1] == StoredIds(files[|files| - 1].1))
  }

  lemma StoredMatchStep(stored: seq<set<string>>, files: seq<(string, string)>, i: nat)
    requires i < |files| && StoredMatch(stored, files[..i])
    ensures StoredMatch(stored + [StoredIds(files[i].1)], files[..i + 1])
  {
    assert (stored + [StoredIds(files[i].1)])[..|stored|] == stored;
    assert files[..i + 1][..i] == files[..i];
  }

  lemma {:induction false} StoredMatchSets(stored: seq<set<string>>, files: seq<(string, string)>)
    requires StoredMatch(stored, files)
    ensures stored == StoredSets(files)
    decreases |files|
  {
    if files != [] {
      var n := |files| - 1;
      StoredMatchSets(stored[..n], files[..n]);
      assert stored == stored[..n] + [stored[n]];
    }
  }

  /** The deck's cards, each tagged in `owner` with the index of the file it
      came from, where `paths` and `stored` give each file's path and stored
      ids: in file order and with that file's path. */
  predicate FileTags(cards: seq<FlashCard>, owner: seq<nat>, paths: seq<string>)
  {
    && |owner| == |cards|
    && (forall k :: 0 <= k < |cards| ==> owner[k] < |paths| && cards[k].sourceFile == paths[owner[k]])
    && (forall a, b :: 0 <= a < b < |cards| ==> owner[a] <= owner[b])
  }

  /** Cards of different files never share a record object, and the cards of
      one file share as that file's parse does. */
  predicate FileSharing(cards: seq<FlashCard>, owner: seq<nat>, stored: seq<set<string>>)
    requires |owner| == |cards| && forall k :: 0 <= k < |cards| ==> owner[k] < |stored|
  {
    && (forall a, b :: 0 <= a < |cards| && 0 <= b < |cards| && owner[a] != owner[b] ==>
          cards[a].rep != cards[b].rep)
    && (forall a, b ::
          0 <= a < |cards| && 0 <= b < |cards| && owner[a] == owner[b] && cards[a].id == cards[b].id
          && cards[a].id in stored[owner[a]] ==>
          cards[a].rep == cards[b].rep)
    && (forall a, b ::
          0 <= a < |cards| && 0 <= b < |cards| && owner[a] == owner[b]
          && cards[a].id in stored[owner[a]] && cards[b].id !in stored[owner[a]] ==>
          cards[a].rep != cards[b].rep)
  }

  /** How an earlier card `c` of file `o` and a later card `d` of file `p`
      may share a record object, `ids` being the stored ids of file `p`. */
  predicate PairShares(c: FlashCard, o: nat, d: FlashCard, p: nat, ids: set<string>)
  {
    && o <= p
    && (o != p ==> c.rep != d.rep)
    && (o == p && c.id == d.id && c.id in ids ==> c.rep == d.rep)
    && (o == p && c.id in ids && d.id !in ids ==> c.rep != d.rep)
    && (o == p && d.id in ids && c.id !in ids ==> c.rep != d.rep)
  }

  /** `FileTags` and `FileSharing`, card by card: each card is tagged with a
      file of its path and relates to every earlier card as `PairShares` says. */
  predicate OwnedBy(cards: seq<FlashCard>, owner: seq<nat>, paths: seq<string>, stored: seq<set<string>>)
    decreases |cards|
  {
    && |owner| == |cards| && |stored| == |paths|
    && (cards != [] ==>
          var n := |cards| - 1;
          && OwnedBy(cards[..n], owner[..n], paths, stored)
          && owner[n] < |paths| && cards[n].sourceFile == paths[owner[n]]
          && forall a :: 0 <= a < n ==> PairShares(cards[a], owner[a], cards[n], owner[n], stored[owner[n]]))
  }

  /** What the card-by-card tagging means for every pair of cards. */
  lemma OwnedByPairs(cards: seq<FlashCard>, owner: seq<nat>, paths: seq<string>,
                     stored: seq<set<string>>)
    requires OwnedBy(cards, owner, paths, stored)
    ensures FileTags(cards, owner, paths) && |stored| == |paths|
    ensures FileSharing(cards, owner, stored)
  {
    OwnedTags(cards, owner, paths, stored);
    forall a, b | 0 <= a < |cards| && 0 <= b < |cards| && a != b
      ensures PairShares(cards[a], owner[a], cards[b], owner[b], stored[owner[b]])
           || PairShares(cards[b], owner[b], cards[a], owner[a], stored[owner[a]])
    {
      if a < b {
        OwnedPair(cards, owner, paths, stored, a, b);
      } else {
        OwnedPair(cards, owner, paths, stored, b, a);
      }
    }
    forall a, b | 0 <= a < b < |cards| ensures owner[a] <= owner[b] {
      OwnedPair(cards, owner, paths, stored, a, b);
    }
  }

  /** The tags themselves: each card names one of the files, by its path. */
  lemma {:induction false} OwnedTags(cards: seq<FlashCard>, owner: seq<nat>, paths: seq<string>,
                                     stored: seq<set<string>>)
    requires OwnedBy(cards, owner, paths, stored)
    decreases |cards|
    ensures |owner| == |cards| && |stored| == |paths|
    ensures forall k :: 0 <= k < |cards| ==> owner[k] < |paths| && cards[k].sourceFile == paths[owner[k]]
  {
    if cards != [] {
      var n := |cards| - 1;
      OwnedTags(cards[..n], owner[..n], paths, stored);
      assert forall k :: 0 <= k < n ==> cards[k] == cards[..n][k] && owner[k] == owner[..n][k];
    }
  }

  /** Any two cards, the earlier first, relate as `PairShares` says. */
  lemma {:induction false} OwnedPair(cards: seq<FlashCard>, owner: seq<nat>, paths: seq<string>,
                                     stored: seq<set<string>>, a: nat, b: nat)
    requires OwnedBy(cards, owner, paths, stored) && a < b < |cards|
    decreases |cards|
    ensures owner[b] < |stored| && PairShares(cards[a], owner[a], cards[b], owner[b], stored[owner[b]])
  {
    var n := |cards| - 1;
    if b < n {
      OwnedPair(cards[..n], owner[..n], paths, stored, a, b);
      assert cards[..n][a] == cards[a] && cards[..n][b] == cards[b];
      assert owner[..n][a] == owner[a] && owner[..n][b] == owner[b];
    }
  }

  /** Tagging against more files keeps the tags. */
  lemma {:induction false} OwnedWiden(cards: seq<FlashCard>, owner: seq<nat>, paths: seq<string>,
                                      stored: seq<set<string>>, path: string, ids: set<string>)
    requires OwnedBy(cards, owner, paths, stored)
    decreases |cards|
    ensures OwnedBy(cards, owner, paths + [path], stored + [ids])
  {
    if cards != [] {
      var n := |cards| - 1;
      OwnedWiden(cards[..n], owner[..n], paths, stored, path, ids);
    }
  }

  /** `len` copies of the file index `n`. */
  function Repeat(n: nat, len: nat): (r: seq<nat>)
    ensures |r| == len && forall k :: 0 <= k < len ==> r[k] == n
  {
    seq(len, _ => n)
  }

  /** Appending the cards of one more file, freshly made, keeps the tagging:
      here the first `j` of them. */
  lemma {:induction false} OwnedAppend(cards: seq<FlashCard>, owner: seq<nat>, paths: seq<string>,
                                       stored: seq<set<string>>, more: seq<FlashCard>, path: string,
                                       ids: set<string>, j: nat)
    requires j <= |more| && OwnedBy(cards, owner, paths, stored)
    requires forall k :: 0 <= k < |more| ==> more[k].sourceFile == path
    requires SharesAsParsed(more, ids)
    requires forall a, k :: 0 <= a < |cards| && 0 <= k < |more| ==> cards[a].rep != more[k].rep
    ensures OwnedBy(cards + more[..j], owner + Repeat(|paths|, j), paths + [path], stored + [ids])
  {
    var ps, ss := paths + [path], stored + [ids];
    if j == 0 {
      OwnedWiden(cards, owner, paths, stored, path, ids);
      assert cards + more[..0] == cards && owner + Repeat(|paths|, 0) == owner;
    } else {
      var init, own := cards + more[..j - 1], owner + Repeat(|paths|, j - 1);
      OwnedAppend(cards, owner, paths, stored, more, path, ids, j - 1);
      OwnedTags(cards, owner, paths, stored);
      AppendPairs(cards, owner, more, |paths|, ids, j - 1);
      assert ss[|paths|] == ids && ps[|paths|] == path;
      OwnedSnoc(init, own, ps, ss, more[j - 1], |paths|);
      PrefixSnoc(cards, more, j);
      RepeatSnoc(owner, |paths|, j);
    }
  }

  lemma RepeatSnoc(xs: seq<nat>, p: nat, j: nat)
    requires 0 < j
    ensures xs + Repeat(p, j - 1) + [p] == xs + Repeat(p, j)
  {
    assert Repeat(p, j - 1) + [p] == Repeat(p, j);
  }

  lemma PrefixSnoc<T>(xs: seq<T>, ys: seq<T>, j: nat)
    requires 0 < j <= |ys|
    ensures xs + ys[..j - 1] + [ys[j - 1]] == xs + ys[..j]
  {
    assert ys[..j - 1] + [ys[j - 1]] == ys[..j];
  }

  /** One more card, tagged with file `o` and relating to every earlier card
      as `PairShares` says, keeps the tagging. */
  lemma OwnedSnoc(cards: seq<FlashCard>, owner: seq<nat>, paths: seq<string>,
                  stored: seq<set<string>>, c: FlashCard, o: nat)
    requires OwnedBy(cards, owner, paths, stored)
    requires o < |paths| && c.sourceFile == paths[o]
    requires forall a :: 0 <= a < |cards| ==> PairShares(cards[a], owner[a], c, o, stored[o])
    ensures OwnedBy(cards + [c], owner + [o], paths, stored)
  {
    assert (cards + [c])[..|cards|] == cards && (owner + [o])[..|cards|] == owner;
  }

  /** The `j`-th appended card relates to every card before it as
      `PairShares` says. */
  lemma AppendPairs(cards: seq<FlashCard>, owner: seq<nat>, more: seq<FlashCard>, p: nat,
                    ids: set<string>, j: nat)
    requires |owner| == |cards| && j < |more|
    requires forall k :: 0 <= k < |cards| ==> owner[k] < p
    requires SharesAsParsed(more, ids)
    requires forall a, k :: 0 <= a < |cards| && 0 <= k < |more| ==> cards[a].rep != more[k].rep
    ensures forall a :: 0 <= a < |cards| + j ==>
              PairShares((cards + more[..j])[a], (owner + Repeat(p, j))[a], more[j], p, ids)
  {
    var all, own, m := cards + more[..j], owner + Repeat(p, j), |cards|;
    forall a | 0 <= a < m + j ensures PairShares(all[a], own[a], more[j], p, ids) {
      if a < m {
        assert all[a] == cards[a] && own[a] == owner[a];
      } else {
        assert all[a] == more[a - m] && own[a] == p;
      }
    }
  }

  /** One file's freshly parsed cards appended: the tagging and the stored
      ids follow. */
  lemma OwnedStep(files: seq<(string, string)>, i: nat, loaded: seq<FlashCard>, owner: seq<nat>,
                  paths: seq<string>, stored: seq<set<string>>, cards: seq<FlashCard>)
    requires i < |files| && OwnedBy(loaded, owner, paths, stored) && StoredMatch(stored, files[..i])
    requires paths == Paths(files[..i])
    requires forall k :: 0 <= k < |cards| ==> cards[k].sourceFile == files[i].0
    requires SharesAsParsed(cards, StoredIds(files[i].1))
    requires forall a, k :: 0 <= a < |loaded| && 0 <= k < |cards| ==> loaded[a].rep != cards[k].rep
    ensures OwnedBy(loaded + cards, owner + Repeat(|paths|, |cards|), paths + [files[i].0],
                    stored + [StoredIds(files[i].1)])
    ensures StoredMatch(stored + [StoredIds(files[i].1)], files[..i + 1])
    ensures paths + [files[i].0] == Paths(files[..i + 1])
  {
    PathsStep(files, i);
    StoredMatchStep(stored, files, i);
    OwnedAppend(loaded, owner, paths, stored, cards, files[i].0, StoredIds(files[i].1), |cards|);
    assert cards[..|cards|] == cards;
  }

  /** Once every file is loaded, the tagging states what the load promises. */
  lemma OwnedLoaded(files: seq<(string, string)>, loaded: seq<FlashCard>, owner: seq<nat>,
                    paths: seq<string>, stored: seq<set<string>>)
    requires OwnedBy(loaded, owner, paths, stored) && StoredMatch(stored, files) && paths == Paths(files)
    ensures stored == StoredSets(files)
    ensures FileTags(loaded, owner, Paths(files))
    ensures FileSharing(loaded, owner, stored)
  {
    StoredMatchSets(stored, files);
    OwnedByPairs(loaded, owner, paths, stored);
  }

  /** The deck's cards agree, one by one, with the loaded views. */
  predicate AgreeAll(cards: seq<FlashCard>, views: seq<(CardView, string)>)
    reads Reps(cards)
  {
    |cards| == |views| && forall k :: 0 <= k < |cards| ==> Agrees(cards[k], views[k].0, views[k].1)
  }

  /** Appending the cards of one more file keeps the deck in step with the views. */
  lemma AgreeAppend(cards: seq<FlashCard>, views: seq<(CardView, string)>,
                    more: seq<FlashCard>, cs: seq<CardView>, path: string)
    requires AgreeAll(cards, views)
    requires |more| == |cs| && forall k :: 0 <= k < |more| ==> Agrees(more[k], cs[k], path)
    ensures AgreeAll(cards + more, views + Tagged(cs, path))
  {
    var all, tagged := cards + more, views + Tagged(cs, path);
    forall k | 0 <= k < |all| ensures Agrees(all[k], tagged[k].0, tagged[k].1) {
      if k < |cards| {
        assert all[k] == cards[k] && tagged[k] == views[k];
      } else {
        assert all[k] == more[k - |cards|] && tagged[k] == (cs[k - |cards|], path);
      }
    }
  }

  /** `load_deck_from_directory` on the files found, given as (path, text)
      pairs in the order they were found: the cards of each file are appended
      in turn and the path recorded. `ok` is false where parsing raises. The
      cards are gathered first and stored in the new deck at the end. */
  method LoadDeck(files: seq<(string, string)>)
    returns (ok: bool, deck: FlashCardDeck, ghost owner: seq<nat>, ghost stored: seq<set<string>>)
    ensures fresh(deck)
    ensures ok <==> LoadViews(Outcomes(files)).Some?
    ensures ok ==> deck.sourceFiles == Paths(files)
    ensures ok ==> AgreeAll(deck.cards, LoadViews(Outcomes(files)).value)
    ensures ok ==> stored == StoredSets(files)
    ensures ok ==> FileTags(deck.cards, owner, Paths(files))
    ensures ok ==> FileSharing(deck.cards, owner, stored)
  {
    deck := new FlashCardDeck();
    var loaded: seq<FlashCard>, paths: seq<string> := [], [];
    ghost var views: seq<(CardView, string)> := [];
    stored := [];
    owner := [];
    var i := 0;
    assert files[..0] == [];
    while i < |files|
      invariant 0 <= i <= |files|
      invariant LoadViews(Outcomes(files[..i])) == Some(views)
      invariant paths == Paths(files[..i]) && StoredMatch(stored, files[..i])
      invariant AgreeAll(loaded, views)
      invariant OwnedBy(loaded, owner, paths, stored)
    {
      var filepath, content := files[i].0, files[i].1;
      var fileOk, cards := ParseCards(content, filepath, loaded, views);
      if !fileOk {
        LoadFail(files, i);
        return false, deck, owner, stored;
      }
      ghost var cs := ParsedCards(content).value;
      LoadStep(files, i, cs);
      OwnedStep(files, i, loaded, owner, paths, stored, cards);
      views := views + Tagged(cs, filepath);
      owner := owner + Repeat(|paths|, |cards|);
      loaded := loaded + cards;
      paths := paths + [filepath];
      stored := stored + [StoredIds(content)];
      i := i + 1;
    }
    assert files[..i] == files;
    OwnedLoaded(files, loaded, owner, paths, stored);
    deck.cards, deck.sourceFiles := loaded, paths;
    ok := true;
  }

  // ------------------------------------------------------------- saving

  /** Every card's last review lies in the years 1..9999, so that it can be
      written out. */
  predicate ReviewDatesInRange(cards: seq<FlashCard>)
    reads Reps(cards)
  {
    forall c :: c in cards ==> (c.rep.lastReview.Some? ==> InRange(c.rep.lastReview.value))
  }

  lemma InRangeEncodable(cards: seq<FlashCard>, filepath: string)
    requires ReviewDatesInRange(cards)
    ensures Encodable(cards, filepath)
  {
    assert forall k :: 0 <= k < |cards| ==> cards[k] in cards;
  }

  lemma GroupInRange(cards: seq<FlashCard>, filepath: string)
    requires ReviewDatesInRange(cards)
    ensures ReviewDatesInRange(GroupOf(cards, filepath))
  {
  }

  /** The entries of the first `n` cards only depend on those cards. */
  lemma {:induction false} FileEntriesPrefix(xs: seq<FlashCard>, ys: seq<FlashCard>, filepath: string, n: nat)
    requires n <= |xs| && ReviewDatesInRange(xs + ys)
    ensures ReviewDatesInRange(xs) && Encodable(xs, filepath) && Encodable(xs + ys, filepath)
    ensures FileEntries(xs + ys, filepath, n) == FileEntries(xs, filepath, n)
  {
    assert forall c :: c in xs ==> c in xs + ys;
    InRangeEncodable(xs, filepath);
    InRangeEncodable(xs + ys, filepath);
    if n > 0 {
      FileEntriesPrefix(xs, ys, filepath, n - 1);
      assert (xs + ys)[n - 1] == xs[n - 1];
    }
  }

  /** The entries a file's group produces are the file's entries of the
      whole deck. */
  ghost predicate SameEntries(cards: seq<FlashCard>, filepath: string)
    reads Reps(cards), Reps(GroupOf(cards, filepath))
  {
    && ReviewDatesInRange(cards)
    && ReviewDatesInRange(GroupOf(cards, filepath))
    && Encodable(cards, filepath) && Encodable(GroupOf(cards, filepath), filepath)
    && FileEntries(GroupOf(cards, filepath), filepath, |GroupOf(cards, filepath)|)
      == FileEntries(cards, filepath, |cards|)
  }

  /** The cards a file's group hands to `save_repetition_data` give the same
      updates as the whole deck would: it keeps only the cards of that file. */
  lemma {:induction false} GroupEntries(cards: seq<FlashCard>, filepath: string)
    requires ReviewDatesInRange(cards)
    ensures SameEntries(cards, filepath)
  {
    GroupInRange(cards, filepath);
    InRangeEncodable(cards, filepath);
    InRangeEncodable(GroupOf(cards, filepath), filepath);
    if cards != [] {
      var n := |cards| - 1;
      assert cards == cards[..n] + [cards[n]];
      assert forall c :: c in cards[..n] ==> c in cards;
      GroupEntries(cards[..n], filepath);
      GroupEntriesSnoc(cards[..n], cards[n], filepath);
    }
  }

  lemma GroupEntriesSnoc(init: seq<FlashCard>, last: FlashCard, filepath: string)
    requires ReviewDatesInRange(init + [last]) && SameEntries(init, filepath)
    ensures SameEntries(init + [last], filepath)
  {
    var cards := init + [last];
    GroupInRange(cards, filepath);
    InRangeEncodable(cards, filepath);
    InRangeEncodable(GroupOf(cards, filepath), filepath);
    FileEntriesPrefix(init, [last], filepath, |init|);
    var g := GroupOf(init, filepath);
    assert cards[..|init|] == init;
    if last.sourceFile == filepath {
      assert GroupOf(cards, filepath) == g + [last];
      FileEntriesPrefix(g, [last], filepath, |g|);
    } else {
      assert GroupOf(cards, filepath) == g;
    }
  }

  lemma GroupUpdates(cards: seq<FlashCard>, filepath: string)
    requires ReviewDatesInRange(cards)
    ensures ReviewDatesInRange(GroupOf(cards, filepath))
    ensures Encodable(cards, filepath) && Encodable(GroupOf(cards, filepath), filepath)
    ensures UpdatesOf(GroupOf(cards, filepath), filepath) == UpdatesOf(cards, filepath)
  {
    GroupEntries(cards, filepath);
    assert SameEntries(cards, filepath);
  }

  /** Some card of the deck was read from `filepath` (a non-empty path). */
  predicate HasFile(cards: seq<FlashCard>, filepath: string)
  {
    filepath != "" && exists c :: c in cards && c.sourceFile == filepath
  }

  lemma HasFileSnoc(cards: seq<FlashCard>, c: FlashCard, filepath: string)
    ensures HasFile(cards + [c], filepath) <==> HasFile(cards, filepath) || (filepath != "" && c.sourceFile == filepath)
  {
    if HasFile(cards, filepath) {
      var d :| d in cards && d.sourceFile == filepath;
      assert d in cards + [c];
    }
    if HasFile(cards + [c], filepath) {
      var d :| d in cards + [c] && d.sourceFile == filepath;
      if d != c { assert d in cards; }
    }
  }

  /** A file no card was read from has no cards to save. */
  lemma GroupOfNone(cards: seq<FlashCard>, filepath: string)
    requires filepath != "" && !HasFile(cards, filepath)
    ensures GroupOf(cards, filepath) == []
  {
    GroupOfMembers(cards, filepath);
  }

  /** The index of the first card read from `filepath`, or `|cards|` when
      there is none. */
  function FirstCard(cards: seq<FlashCard>, filepath: string): (k: nat)
    ensures k <= |cards|
    ensures k < |cards| ==> cards[k].sourceFile == filepath
    ensures forall m :: 0 <= m < k ==> cards[m].sourceFile != filepath
  {
    if cards == [] then 0
    else if cards[0].sourceFile == filepath then 0
    else 1 + FirstCard(cards[1..], filepath)
  }

  /** A file some card was read from has a first card. */
  lemma HasFileFirst(cards: seq<FlashCard>, filepath: string)
    requires HasFile(cards, filepath)
    ensures FirstCard(cards, filepath) < |cards|
  {
    var d :| d in cards && d.sourceFile == filepath;
    var m :| 0 <= m < |cards| && cards[m] == d;
  }

  /** Appending a card keeps every file's first card, and makes it the first
      card of its file when that file had none. */
  lemma FirstCardSnoc(cards: seq<FlashCard>, c: FlashCard, filepath: string)
    ensures FirstCard(cards, filepath) < |cards| ==> FirstCard(cards + [c], filepath) == FirstCard(cards, filepath)
    ensures FirstCard(cards, filepath) == |cards| && c.sourceFile == filepath ==>
              FirstCard(cards + [c], filepath) == |cards|
  {
    var k := FirstCard(cards, filepath);
    if k < |cards| {
      assert (cards + [c])[k] == cards[k];
    } else if c.sourceFile == filepath {
      assert (cards + [c])[|cards|] == c;
    }
  }

  /** The files of `order` come in the order of their first card. */
  predicate FirstOrdered(cards: seq<FlashCard>, order: seq<string>)
  {
    forall a, b :: 0 <= a < b < |order| ==> FirstCard(cards, order[a]) < FirstCard(cards, order[b])
  }

  /** Appending a card, and its file to `order` when the file is new, keeps
      the files in the order of their first card. */
  lemma FirstOrderedSnoc(cards: seq<FlashCard>, c: FlashCard, order: seq<string>, order': seq<string>)
    requires FirstOrdered(cards, order) && forall f :: f in order <==> HasFile(cards, f)
    requires order' == if c.sourceFile != "" && c.sourceFile !in order then order + [c.sourceFile] else order
    ensures FirstOrdered(cards + [c], order')
  {
    forall a, b | 0 <= a < b < |order'|
      ensures FirstCard(cards + [c], order'[a]) < FirstCard(cards + [c], order'[b])
    {
      assert order'[a] == order[a];
      HasFileFirst(cards, order[a]);
      FirstCardSnoc(cards, c, order[a]);
      FirstCardSnoc(cards, c, order'[b]);
      if b < |order| {
        assert order'[b] == order[b];
        HasFileFirst(cards, order[b]);
      }
    }
  }

  /** `order` lists the non-empty source files of `cards` once each, in the
      order of their first card, and `byFile` maps each of them, and nothing
      else, to its group. */
  ghost predicate Grouped(cards: seq<FlashCard>, order: seq<string>, byFile: map<string, seq<FlashCard>>)
  {
    && (forall a, b :: 0 <= a < b < |order| ==> order[a] != order[b])
    && FirstOrdered(cards, order)
    && (forall f :: f in order <==> HasFile(cards, f))
    && (forall f :: f in byFile <==> f in order)
    && (forall f :: f in byFile ==> byFile[f] == GroupOf(cards, f))
  }

  /** One turn of the grouping loop: the next card joins its file's group,
      the file being appended to `order` when it is new. */
  lemma GroupSnoc(cards: seq<FlashCard>, c: FlashCard, order: seq<string>, byFile: map<string, seq<FlashCard>>,
                  order': seq<string>, byFile': map<string, seq<FlashCard>>)
    requires Grouped(cards, order, byFile)
    requires order' == if c.sourceFile != "" && c.sourceFile !in byFile then order + [c.sourceFile] else order
    requires byFile' == if c.sourceFile == "" then byFile
      else byFile[c.sourceFile := (if c.sourceFile in byFile then byFile[c.sourceFile] else []) + [c]]
    ensures Grouped(cards + [c], order', byFile')
  {
    forall f ensures HasFile(cards + [c], f) <==> HasFile(cards, f) || (f != "" && c.sourceFile == f) {
      HasFileSnoc(cards, c, f);
    }
    if c.sourceFile != "" && c.sourceFile !in byFile {
      GroupOfNone(cards, c.sourceFile);
    }
    forall f | f in byFile' ensures byFile'[f] == GroupOf(cards + [c], f) {
      GroupOfSnoc(cards, c, f);
    }
    FirstOrderedSnoc(cards, c, order, order');
  }

  /** The order `Grouped` fixes: a file listed before another has a card
      before every card of the other. */
  lemma GroupedFirstBefore(cards: seq<FlashCard>, order: seq<string>, byFile: map<string, seq<FlashCard>>,
                           a: nat, b: nat, k: nat)
    requires Grouped(cards, order, byFile)
    requires a < b < |order| && k < |cards| && cards[k].sourceFile == order[b]
    ensures FirstCard(cards, order[a]) < k && cards[FirstCard(cards, order[a])].sourceFile == order[a]
  {
  }

  /** A card of `f1` followed by a card of `f2`: a grouping that lists `f2`
      first is not the one `save_deck` builds. */
  lemma GroupedTwoFiles(c1: FlashCard, c2: FlashCard, byFile: map<string, seq<FlashCard>>)
    requires c1.sourceFile == "f1" && c2.sourceFile == "f2"
    ensures !Grouped([c1, c2], ["f2", "f1"], byFile)
  {
    var cards := [c1, c2];
    assert FirstCard(cards, "f1") == 0;
    assert FirstCard(cards, "f2") == 1;
    var order := ["f2", "f1"];
    assert !(FirstCard(cards, order[0]) < FirstCard(cards, order[1]));
  }

  /** What `Grouped` says of the `j`th file of `order`. */
  lemma GroupedAt(cards: seq<FlashCard>, order: seq<string>, byFile: map<string, seq<FlashCard>>, j: nat)
    requires Grouped(cards, order, byFile) && j < |order|
    ensures HasFile(cards, order[j]) && order[j] in byFile && byFile[order[j]] == GroupOf(cards, order[j])
    ensures forall a, b :: 0 <= a < b < |order| ==> order[a] != order[b]
  {
  }

  /** A prefix one longer is the prefix and the next element. */
  lemma TakeSnoc<T>(xs: seq<T>, i: nat)
    requires i < |xs|
    ensures xs[..i + 1] == xs[..i] + [xs[i]]
  {
  }

  /** The first loop of `save_deck`: the cards grouped by their non-empty
      source file, the files in the order of their first card. */
  method GroupByFile(cards: seq<FlashCard>) returns (order: seq<string>, byFile: map<string, seq<FlashCard>>)
    ensures Grouped(cards, order, byFile)
  {
    order, byFile := [], map[];
    ghost var seen: seq<FlashCard> := [];
    var i := 0;
    while i < |cards|
      invariant 0 <= i <= |cards| && seen == cards[..i]
      invariant Grouped(seen, order, byFile)
    {
      var card := cards[i];
      ghost var order0, byFile0 := order, byFile;
      if card.sourceFile != "" {
        var group := if card.sourceFile in byFile then byFile[card.sourceFile] else [];
        if card.sourceFile !in byFile {
          order := order + [card.sourceFile];
        }
        byFile := byFile[card.sourceFile := group + [card]];
      }
      GroupSnoc(seen, card, order0, byFile0, order, byFile);
      TakeSnoc(cards, i);
      seen := seen + [card];
      i := i + 1;
    }
    assert cards[..i] == cards;
  }

  /** The new text of the file `filepath` after `save_deck`, from its text
      `text` before: rewritten with the records of its cards if it has any,
      else untouched. The rewrite is the corrected one, which ends each
      inserted comment's line. */
  function SavedText(cards: seq<FlashCard>, filepath: string, text: string): string
    reads Reps(cards)
    requires ReviewDatesInRange(cards)
  {
    if HasFile(cards, filepath) then
      InRangeEncodable(cards, filepath);
      Rewrite(text, UpdatesOf(cards, filepath))
    else text
  }

  /** The new text of every file after `save_deck`. */
  function SavedFiles(cards: seq<FlashCard>, disk: map<string, string>): (r: map<string, string>)
    reads Reps(cards)
    requires ReviewDatesInRange(cards)
    ensures r.Keys == disk.Keys
  {
    map f | f in disk :: SavedText(cards, f, disk[f])
  }

  lemma SavedFilesAt(cards: seq<FlashCard>, disk: map<string, string>, out: map<string, string>)
    requires ReviewDatesInRange(cards)
    requires out.Keys == disk.Keys && forall f :: f in disk ==> out[f] == SavedText(cards, f, disk[f])
    ensures out == SavedFiles(cards, disk)
  {
  }

  /** `save_repetition_data(filepath, group)` with the group `save_deck`
      built for the file: the file's new text. */
  method SaveGroup(cards: seq<FlashCard>, group: seq<FlashCard>, filepath: string, text: string)
    returns (newText: string)
    requires ReviewDatesInRange(cards) && HasFile(cards, filepath) && group == GroupOf(cards, filepath)
    ensures newText == SavedText(cards, filepath, text)
  {
    GroupUpdates(cards, filepath);
    newText := SaveRepetitionData(text, filepath, group);
  }

  /** Stepping a prefix of a list of distinct names by one. */
  lemma SliceStep(order: seq<string>, j: nat)
    requires j < |order|
    requires forall a, b :: 0 <= a < b < |order| ==> order[a] != order[b]
    ensures forall f :: f in order[..j + 1] <==> f in order[..j] || f == order[j]
    ensures order[j] !in order[..j]
  {
    assert order[..j + 1] == order[..j] + [order[j]];
  }

  /** After the first `j` files of `order` were written: those files hold
      their `target` text and every other file is as it was. */
  predicate SavedUpTo(order: seq<string>, j: nat, disk: map<string, string>,
                      target: map<string, string>, current: map<string, string>)
    requires j <= |order|
  {
    && current.Keys == disk.Keys && target.Keys == disk.Keys
    && (forall f :: f in order[..j] ==> f in disk && current[f] == target[f])
    && (forall f :: f in disk && f !in order[..j] ==> current[f] == disk[f])
  }

  /** Writing the `target` text of the next file of `order` keeps `SavedUpTo`. */
  lemma SavedStep(order: seq<string>, j: nat, disk: map<string, string>,
                  target: map<string, string>, current: map<string, string>)
    requires j < |order| && order[j] in disk
    requires forall a, b :: 0 <= a < b < |order| ==> order[a] != order[b]
    requires SavedUpTo(order, j, disk, target, current)
    ensures current[order[j]] == disk[order[j]]
    ensures SavedUpTo(order, j + 1, disk, target, current[order[j] := target[order[j]]])
  {
    SliceStep(order, j);
  }

  /** One turn of `save_deck`'s loop: the next file is rewritten with its group. */
  method SaveNext(cards: seq<FlashCard>, order: seq<string>, byFile: map<string, seq<FlashCard>>, j: nat,
                  disk: map<string, string>, ghost target: map<string, string>, current: map<string, string>)
    returns (next: map<string, string>)
    requires ReviewDatesInRange(cards) && Grouped(cards, order, byFile)
    requires j < |order| && order[j] in current
    requires SavedUpTo(order, j, disk, target, current)
    requires target[order[j]] == SavedText(cards, order[j], disk[order[j]])
    ensures SavedUpTo(order, j + 1, disk, target, next)
  {
    var filepath := order[j];
    GroupedAt(cards, order, byFile, j);
    SavedStep(order, j, disk, target, current);
    var text := SaveGroup(cards, byFile[filepath], filepath, current[filepath]);
    next := current[filepath := text];
  }

  /** Once every file of `order` is written, the disk is `target`. */
  lemma SavedAll(cards: seq<FlashCard>, disk: map<string, string>, order: seq<string>,
                 byFile: map<string, seq<FlashCard>>, target: map<string, string>, current: map<string, string>)
    requires ReviewDatesInRange(cards) && Grouped(cards, order, byFile)
    requires target == SavedFiles(cards, disk)
    requires SavedUpTo(order, |order|, disk, target, current)
    ensures forall f :: HasFile(cards, f) ==> f in disk
    ensures current == target
  {
    assert order[..|order|] == order;
    forall f | f in disk ensures current[f] == target[f] {
      if f !in order {
        assert !HasFile(cards, f);
      }
    }
  }

  /** The second loop of `save_deck`: each grouped file in turn is rewritten;
      `ok` is false where a file with cards cannot be read. */
  method SaveFiles(cards: seq<FlashCard>, order: seq<string>, byFile: map<string, seq<FlashCard>>,
                   disk: map<string, string>)
    returns (ok: bool, newDisk: map<string, string>)
    requires ReviewDatesInRange(cards) && Grouped(cards, order, byFile)
    ensures ok <==> forall f :: HasFile(cards, f) ==> f in disk
    ensures ok ==> newDisk == SavedFiles(cards, disk)
  {
    ghost var target := SavedFiles(cards, disk);
    newDisk := disk;
    var j := 0;
    assert order[..0] == [];
    while j < |order|
      invariant 0 <= j <= |order|
      invariant forall o :: o in Reps(cards) ==> allocated(o)
      invariant target == SavedFiles(cards, disk)
      invariant SavedUpTo(order, j, disk, target, newDisk)
    {
      if order[j] !in newDisk {
        GroupedAt(cards, order, byFile, j);
        return false, newDisk;
      }
      newDisk := SaveNext(cards, order, byFile, j, disk, target, newDisk);
      j := j + 1;
    }
    SavedAll(cards, disk, order, byFile, target, newDisk);
    ok := true;
  }

  /** `save_deck` on the current text of the files, `disk`: every file with
      a card is rewritten with that file's cards, in the order of their first
      card, by the corrected `save_repetition_data`; `ok` is false where a
      file with cards cannot be read. */
  method SaveDeck(deck: FlashCardDeck, disk: map<string, string>) returns (ok: bool, newDisk: map<string, string>)
    requires ReviewDatesInRange(deck.cards)
    ensures ok <==> forall f :: HasFile(deck.cards, f) ==> f in disk
    ensures ok ==> newDisk == SavedFiles(deck.cards, disk)
  {
    var order, byFile := GroupByFile(deck.cards);
    ok, newDisk := SaveFiles(deck.cards, order, byFile, disk);
  }
}
