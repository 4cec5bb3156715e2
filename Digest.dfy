/** The daily digest (`send_discount_games`): the ranked games are looked up
    one by one in the storefront, those discounted by at least 20% are kept,
    and the list is posted to the channel, one line per game. A new message
    starts when the next line would push the current one past 2000
    characters; a line is never split, so only a lone over-long line makes a
    message longer than 2000. */
module Digest {
  import Text
  import opened Json
  import Ranking
  import Discount
  import Packing

  /** How many ranked games are looked up. */
  const Limit: nat := 300

  /** The smallest discount, in percent, that is listed. */
  const Threshold: int := 20

  /** The longest message the channel accepts, in characters. */
  const MaxLength: nat := 2000

  /** The first line of the digest. */
  const Header: string := "**📌 할인 중인 인기 게임 리스트 (매일 오전 6시 갱신)**\n"

  /** The message posted when no game qualifies. */
  const Notice: string := "⛔ 현재 할인 중인 인기 게임이 없습니다."

  /** A discounted game as the digest lists it. */
  datatype Listing = Listing(name: string, discount: Value, price: Value, url: string)

  /** A game qualifies when its lookup returns and its discount is an integer
      of at least `Threshold` (a `bool` compares as 0 or 1, so never does). */
  predicate Qualifies(game: Ranking.Game, answer: Discount.Response) {
    var info := Discount.GetDiscountInfo(game.appId, answer);
    info.Returned? && info.value.0.Int? && info.value.0.i >= Threshold
  }

  /** The listing of a qualifying game: its name, the discount and price its
      lookup returned, and its store page. */
  function ListingFor(game: Ranking.Game, answer: Discount.Response): Listing
    requires Qualifies(game, answer)
  {
    var info := Discount.GetDiscountInfo(game.appId, answer).value;
    Listing(game.name, info.0, info.1, Discount.StoreUrl(game.appId))
  }

  /** One turn of the filter loop: the lookup, then `discount >= 20`. Either
      can raise, which ends the run. */
  function Assess(game: Ranking.Game, answer: Discount.Response): Outcome<seq<Listing>> {
    match Discount.GetDiscountInfo(game.appId, answer)
    case Raised(e) => Raised(e)
    case Returned((discount, price)) =>
      match AtLeast(discount, Threshold)
      case Raised(e) => Raised(e)
      case Returned(keep) =>
        if keep then Returned([Listing(game.name, discount, price, Discount.StoreUrl(game.appId))])
        else Returned([])
  }

  /** A turn lists the game exactly when it qualifies, and lists it as
      ListingFor; it raises exactly when the lookup raises or returns a
      discount that is neither a number nor a bool. */
  lemma AssessSpec(game: Ranking.Game, answer: Discount.Response)
    ensures var r := Assess(game, answer);
            && (r.Returned? && r.value != [] <==> Qualifies(game, answer))
            && (Qualifies(game, answer) ==> r == Returned([ListingFor(game, answer)]))
            && (r.Returned? ==> |r.value| <= 1)
            && (r.Raised? <==> Discount.GetDiscountInfo(game.appId, answer).Raised?
                               || !(Discount.GetDiscountInfo(game.appId, answer).value.0.Int?
                                    || Discount.GetDiscountInfo(game.appId, answer).value.0.Bool?))
  {
  }

  /** The filter loop over `games`, where `answers[i]` is the storefront's
      answer for `games[i]`: the listings of the qualifying games in order, or
      the first exception raised. */
  function Filtered(games: seq<Ranking.Game>, answers: seq<Discount.Response>): Outcome<seq<Listing>>
    requires |answers| == |games|
  {
    if games == [] then Returned([])
    else
      var n := |games|;
      match Filtered(games[..n - 1], answers[..n - 1])
      case Raised(e) => Raised(e)
      case Returned(listed) =>
        match Assess(games[n - 1], answers[n - 1])
        case Raised(e) => Raised(e)
        case Returned(more) => Returned(listed + more)
  }

  /** The positions of the qualifying games, in increasing order. */
  function Selected(games: seq<Ranking.Game>, answers: seq<Discount.Response>): seq<nat>
    requires |answers| == |games|
  {
    if games == [] then []
    else
      var n := |games|;
      Selected(games[..n - 1], answers[..n - 1]) + (if Qualifies(games[n - 1], answers[n - 1]) then [n - 1] else [])
  }

  /** `Selected` holds, in increasing order, exactly the positions of the
      games that qualify. */
  lemma {:induction false} SelectedSpec(games: seq<Ranking.Game>, answers: seq<Discount.Response>)
    requires |answers| == |games|
    ensures forall k :: 0 <= k < |Selected(games, answers)| ==> Selected(games, answers)[k] < |games|
    ensures forall k, l :: 0 <= k < l < |Selected(games, answers)| ==> Selected(games, answers)[k] < Selected(games, answers)[l]
    ensures forall i :: 0 <= i < |games| ==> (i in Selected(games, answers) <==> Qualifies(games[i], answers[i]))
  {
    if games != [] {
      var n := |games|;
      var games', answers' := games[..n - 1], answers[..n - 1];
      SelectedSpec(games', answers');
      var sel := Selected(games, answers);
      var sel' := Selected(games', answers');
      assert sel == sel' + (if Qualifies(games[n - 1], answers[n - 1]) then [n - 1] else []);
      forall i | 0 <= i < n
        ensures i in sel <==> Qualifies(games[i], answers[i])
      {
        if i < n - 1 {
          assert games'[i] == games[i] && answers'[i] == answers[i];
          assert i in sel <==> i in sel';
        }
      }
    }
  }

  lemma FilteredStep(games: seq<Ranking.Game>, answers: seq<Discount.Response>, i: nat)
    requires |answers| == |games| && i < |games|
    ensures Filtered(games[..i + 1], answers[..i + 1]) ==
              match Filtered(games[..i], answers[..i])
              case Raised(e) => Raised(e)
              case Returned(listed) =>
                match Assess(games[i], answers[i])
                case Raised(e) => Raised(e)
                case Returned(more) => Returned(listed + more)
  {
    assert games[..i + 1][..i] == games[..i];
    assert answers[..i + 1][..i] == answers[..i];
  }

  /** Once an exception is raised the run stops: the outcome of the whole
      loop is that of the prefix that raised. */
  lemma {:induction false} RaisedIsFinal(games: seq<Ranking.Game>, answers: seq<Discount.Response>, i: nat)
    requires |answers| == |games| && i <= |games|
    requires Filtered(games[..i], answers[..i]).Raised?
    ensures Filtered(games, answers) == Filtered(games[..i], answers[..i])
  {
    if i == |games| {
      assert games[..i] == games && answers[..i] == answers;
    } else {
      var n := |games|;
      assert games[..n - 1][..i] == games[..i];
      assert answers[..n - 1][..i] == answers[..i];
      RaisedIsFinal(games[..n - 1], answers[..n - 1], i);
    }
  }

  /** A filter that returns saw every lookup and comparison return. */
  lemma {:induction false} ReturnedMeansNoneRaised(games: seq<Ranking.Game>, answers: seq<Discount.Response>)
    requires |answers| == |games|
    requires Filtered(games, answers).Returned?
    ensures forall i :: 0 <= i < |games| ==> Assess(games[i], answers[i]).Returned?
  {
    if games != [] {
      var n := |games|;
      var games', answers' := games[..n - 1], answers[..n - 1];
      ReturnedMeansNoneRaised(games', answers');
      forall i | 0 <= i < n - 1
        ensures Assess(games[i], answers[i]).Returned?
      {
        assert games'[i] == games[i] && answers'[i] == answers[i];
      }
    }
  }

  /** A filter that raises does so with the error of the first turn that
      raised. */
  lemma {:induction false} RaisedAtFirst(games: seq<Ranking.Game>, answers: seq<Discount.Response>) returns (i: nat)
    requires |answers| == |games|
    requires Filtered(games, answers).Raised?
    ensures i < |games| && Filtered(games, answers) == Assess(games[i], answers[i])
    ensures forall j :: 0 <= j < i ==> Assess(games[j], answers[j]).Returned?
  {
    var n := |games|;
    var games', answers' := games[..n - 1], answers[..n - 1];
    if Filtered(games', answers').Raised? {
      i := RaisedAtFirst(games', answers');
      forall j | 0 <= j <= i
        ensures games'[j] == games[j] && answers'[j] == answers[j]
      {
      }
    } else {
      i := n - 1;
      ReturnedMeansNoneRaised(games', answers');
      forall j | 0 <= j < i
        ensures games'[j] == games[j] && answers'[j] == answers[j]
      {
      }
    }
  }

  /** The filter raises exactly when some lookup or comparison raises, and
      then with the error of the first one. */
  lemma FilteredRaises(games: seq<Ranking.Game>, answers: seq<Discount.Response>)
    requires |answers| == |games|
    ensures Filtered(games, answers).Raised? <==> exists i :: 0 <= i < |games| && Assess(games[i], answers[i]).Raised?
    ensures Filtered(games, answers).Raised? ==>
              exists i :: 0 <= i < |games| && Filtered(games, answers) == Assess(games[i], answers[i]) &&
                          forall j :: 0 <= j < i ==> Assess(games[j], answers[j]).Returned?
  {
    if Filtered(games, answers).Raised? {
      var i := RaisedAtFirst(games, answers);
    } else {
      ReturnedMeansNoneRaised(games, answers);
    }
  }

  /** A filter that returns lists, in order, the listings of exactly the
      selected games. */
  lemma {:induction false} FilteredListsSelected(games: seq<Ranking.Game>, answers: seq<Discount.Response>)
    requires |answers| == |games|
    requires Filtered(games, answers).Returned?
    ensures var listed := Filtered(games, answers).value;
            var sel := Selected(games, answers);
            |listed| == |sel| &&
            forall k :: 0 <= k < |sel| ==> sel[k] < |games| && Qualifies(games[sel[k]], answers[sel[k]]) &&
                                           listed[k] == ListingFor(games[sel[k]], answers[sel[k]])
  {
    if games != [] {
      var n := |games|;
      var games', answers' := games[..n - 1], answers[..n - 1];
      FilteredListsSelected(games', answers');
      var listed' := Filtered(games', answers').value;
      var sel' := Selected(games', answers');
      var more := Assess(games[n - 1], answers[n - 1]).value;
      AssessSpec(games[n - 1], answers[n - 1]);
      var listed := listed' + more;
      var sel := sel' + (if Qualifies(games[n - 1], answers[n - 1]) then [n - 1] else []);
      assert Filtered(games, answers).value == listed;
      assert Selected(games, answers) == sel;
      forall k | 0 <= k < |sel|
        ensures sel[k] < |games| && Qualifies(games[sel[k]], answers[sel[k]]) &&
                listed[k] == ListingFor(games[sel[k]], answers[sel[k]])
      {
        if k < |sel'| {
          var i := sel'[k];
          assert sel[k] == i && listed[k] == listed'[k];
          assert games'[i] == games[i] && answers'[i] == answers[i];
        }
      }
    }
  }

  /** Every listing in a returned filter is discounted by at least
      `Threshold` percent and links the store page of a ranked game. */
  lemma ListingsQualify(games: seq<Ranking.Game>, answers: seq<Discount.Response>)
    requires |answers| == |games|
    requires Filtered(games, answers).Returned?
    ensures forall listing :: listing in Filtered(games, answers).value ==>
              listing.discount.Int? && listing.discount.i >= Threshold &&
              exists i :: 0 <= i < |games| && listing.url == Discount.StoreUrl(games[i].appId) && listing.name == games[i].name
  {
    FilteredListsSelected(games, answers);
    var listed := Filtered(games, answers).value;
    var sel := Selected(games, answers);
    forall listing | listing in listed
      ensures listing.discount.Int? && listing.discount.i >= Threshold &&
              exists i :: 0 <= i < |games| && listing.url == Discount.StoreUrl(games[i].appId) && listing.name == games[i].name
    {
      var k :| 0 <= k < |listed| && listed[k] == listing;
      var i := sel[k];
      assert listing.url == Discount.StoreUrl(games[i].appId) && listing.name == games[i].name;
    }
  }

  /** A turn whose lookup and comparison both return lists the game exactly
      when the comparison holds. */
  lemma AssessReturns(game: Ranking.Game, answer: Discount.Response, discount: Value, price: Value)
    requires Discount.GetDiscountInfo(game.appId, answer) == Returned((discount, price))
    requires AtLeast(discount, Threshold).Returned?
    ensures Assess(game, answer) ==
              Returned(if AtLeast(discount, Threshold).value
                       then [Listing(game.name, discount, price, Discount.StoreUrl(game.appId))] else [])
  {
  }

  /** The filter loop of `send_discount_games`. */
  method FilterGames(games: seq<Ranking.Game>, answers: seq<Discount.Response>) returns (r: Outcome<seq<Listing>>)
    requires |answers| == |games|
    ensures r == Filtered(games, answers)
  {
    var listed: seq<Listing> := [];
    var i := 0;
    while i < |games|
      invariant i <= |games|
      invariant Filtered(games[..i], answers[..i]) == Returned(listed)
    {
      var game := games[i];
      FilteredStep(games, answers, i);
      var info := Discount.GetDiscountInfo(game.appId, answers[i]);
      if info.Raised? {
        r := Raised(info.error);
        RaisedIsFinal(games, answers, i + 1);
        return;
      }
      var (discount, price) := info.value;
      var keep := AtLeast(discount, Threshold);
      if keep.Raised? {
        r := Raised(keep.error);
        RaisedIsFinal(games, answers, i + 1);
        return;
      }
      var more := if keep.value then [Listing(game.name, discount, price, Discount.StoreUrl(game.appId))] else [];
      AssessReturns(game, answers[i], discount, price);
      listed := listed + more;
      i := i + 1;
    }
    assert games[..i] == games && answers[..i] == answers;
    r := Returned(listed);
  }

  /** The line a listing gets in the digest: the f-string of the packing
      loop, written as the join of its parts. */
  function Line(listing: Listing): string {
    Text.Concat(["🎮 [", listing.name, "](<", listing.url, ">) - 할인 ", Display(listing.discount),
                 "% (가격 ", Display(listing.price), ")\n"])
  }

  function Lines(listings: seq<Listing>): seq<string> {
    seq(|listings|, k requires 0 <= k < |listings| => Line(listings[k]))
  }

  /** Every line ends with a newline, so none is empty. */
  lemma LineEndsWithNewline(listing: Listing)
    ensures |Line(listing)| > 0 && Line(listing)[|Line(listing)| - 1] == '\n'
  {
  }

  /** The message packer of `send_discount_games`: the header, then one line
      per listing. A new message starts when the next line would push the
      current one past `MaxLength` characters, so only a lone over-long line
      makes a message longer than `MaxLength`. */
  method PackMessages(listings: seq<Listing>) returns (messages: seq<string>)
    ensures messages == Packing.Blocks([Header] + Lines(listings), MaxLength)
    ensures messages != [] && |messages[0]| >= |Header| && messages[0][..|Header|] == Header
    ensures Text.Concat(messages) == Header + Text.Concat(Lines(listings))
    ensures forall k :: 0 <= k < |messages| ==>
              messages[k] != [] &&
              (|messages[k]| <= MaxLength || exists j :: 0 <= j < |listings| && messages[k] == Line(listings[j]))
  {
    ghost var lines := Lines(listings);
    messages := [];
    var current := Header;
    Packing.BlocksOfOne(Header, MaxLength);
    for i := 0 to |listings|
      invariant current != []
      invariant messages + [current] == Packing.Blocks([Header] + lines[..i], MaxLength)
    {
      var line := Line(listings[i]);
      assert [Header] + lines[..i + 1] == ([Header] + lines[..i]) + [line];
      Packing.BlocksStepFrom([Header] + lines[..i], line, MaxLength, messages, current);
      if |current| + |line| > MaxLength {
        messages := messages + [current];
        current := "";
      }
      LineEndsWithNewline(listings[i]);
      current := current + line;
    }
    messages := messages + [current];
    assert lines[..|listings|] == lines;
    MessagesStartWithHeader(listings);
    MessagesJoinToDigest(listings);
    MessagesAreBounded(listings);
  }

  /** The header and every line are non-empty. */
  lemma ItemsAreNonEmpty(listings: seq<Listing>)
    ensures forall j :: 0 <= j < |[Header] + Lines(listings)| ==> ([Header] + Lines(listings))[j] != []
  {
    var items := [Header] + Lines(listings);
    forall j | 0 <= j < |items|
      ensures items[j] != []
    {
      if j > 0 {
        assert items[j] == Line(listings[j - 1]);
        LineEndsWithNewline(listings[j - 1]);
      }
    }
  }

  /** The first message begins with the header. */
  lemma MessagesStartWithHeader(listings: seq<Listing>)
    ensures var messages := Packing.Blocks([Header] + Lines(listings), MaxLength);
            messages != [] && |messages[0]| >= |Header| && messages[0][..|Header|] == Header
  {
    Packing.FirstBlockStartsWithFirstItem([Header] + Lines(listings), MaxLength);
  }

  /** The messages, joined, are the header followed by every line: nothing
      is lost, repeated or reordered. */
  lemma MessagesJoinToDigest(listings: seq<Listing>)
    ensures Text.Concat(Packing.Blocks([Header] + Lines(listings), MaxLength)) == Header + Text.Concat(Lines(listings))
  {
    Packing.BlocksJoinToItems([Header] + Lines(listings), MaxLength);
    Text.ConcatAppend([Header], Lines(listings));
    Packing.ConcatSingle(Header);
  }

  /** Every message is non-empty and fits the channel's limit, unless it is a
      single line that is too long on its own: a line is never split. */
  lemma MessagesAreBounded(listings: seq<Listing>)
    ensures var messages := Packing.Blocks([Header] + Lines(listings), MaxLength);
            forall k :: 0 <= k < |messages| ==>
              messages[k] != [] &&
              (|messages[k]| <= MaxLength || exists j :: 0 <= j < |listings| && messages[k] == Line(listings[j]))
  {
    var items := [Header] + Lines(listings);
    var messages := Packing.Blocks(items, MaxLength);
    ItemsAreNonEmpty(listings);
    Packing.BlocksAreBounded(items, MaxLength);
    forall k | 0 <= k < |messages| && |messages[k]| > MaxLength
      ensures exists j :: 0 <= j < |listings| && messages[k] == Line(listings[j])
    {
      var m := messages[k];
      var j :| 0 <= j < |items| && items[j] == m;
      assert j != 0 by {
        assert |Header| <= MaxLength;
      }
      assert m == Line(listings[j - 1]);
    }
  }

  /** The packing is greedy: every message after the first begins with the
      line that follows the header and the lines already posted, and that
      line would have made the message before it longer than `MaxLength`. */
  lemma MessagesAreGreedy(listings: seq<Listing>, k: nat)
    requires 0 < k < |Packing.Blocks([Header] + Lines(listings), MaxLength)|
    ensures var messages := Packing.Blocks([Header] + Lines(listings), MaxLength);
            exists j :: 0 <= j < |listings| &&
                        Header + Text.Concat(Lines(listings)[..j]) == Text.Concat(messages[..k]) &&
                        |messages[k - 1]| + |Line(listings[j])| > MaxLength &&
                        Text.StartsWith(messages[k], Line(listings[j]))
  {
    var items := [Header] + Lines(listings);
    var i := Packing.BlockStart(items, MaxLength, k);
    assert items[i] == Line(listings[i - 1]);
    HeaderAndLines(listings, i - 1);
  }

  /** The header and the first `j` lines, joined. */
  lemma HeaderAndLines(listings: seq<Listing>, j: nat)
    requires j <= |listings|
    ensures Text.Concat(([Header] + Lines(listings))[..j + 1]) == Header + Text.Concat(Lines(listings)[..j])
  {
    assert ([Header] + Lines(listings))[..j + 1] == [Header] + Lines(listings)[..j];
    Text.ConcatAppend([Header], Lines(listings)[..j]);
    Packing.ConcatSingle(Header);
  }

  /** Whether the channel could be resolved (`bot.get_channel`, then
      `bot.fetch_channel`). */
  datatype Channel = Found | NotFound

  /** How one run of `send_discount_games` ends. */
  datatype Run =
    | Stalled                          // the ranking ran out of pages before `Limit` games
    | Crashed(error: PyError)          // an exception escaped the filter loop
    | Delivered(messages: seq<string>) // the messages posted, in order

  /** `send_discount_games()`: `pages` are the ranking pages the run reads,
      `answers[i]` the storefront's answer for the i-th ranked game. */
  method SendDiscountGames(pages: seq<Ranking.Page>, answers: seq<Discount.Response>, channel: Channel) returns (r: Run)
    requires |answers| == Limit
    ensures r.Stalled? <==> |Ranking.Ranked(pages)| < Limit
    ensures var top := Ranking.Take(Ranking.Ranked(pages), Limit);
            |top| == Limit ==>
              match Filtered(top, answers)
              case Raised(e) => r == Crashed(e)
              case Returned(listed) =>
                if channel == NotFound then r == Delivered([])
                else if listed == [] then r == Delivered([Notice])
                else r == Delivered(Packing.Blocks([Header] + Lines(listed), MaxLength))
  {
    var top, _, complete := Ranking.GetTopGames(pages, Limit);
    if !complete {
      return Stalled;
    }
    var filtered := FilterGames(top, answers);
    if filtered.Raised? {
      return Crashed(filtered.error);
    }
    if channel == NotFound {
      return Delivered([]);
    }
    var listed := filtered.value;
    if listed == [] {
      return Delivered([Notice]);
    }
    var messages := PackMessages(listed);
    return Delivered(messages);
  }
}
