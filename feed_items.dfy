/**
  Normalisation of announcements into queue items (client.js, the ingestion
  cycle). An RSS `<item>` arrives from xml2js with every child element as an
  array of its text values; a missing child is absent altogether. Items from
  the scraper carry only a title and a link.
*/
module FeedItems {
  import opened Wrappers

  datatype RawItem = RawItem(
    title: Option<seq<string>>,
    size: Option<seq<string>>,
    pubDate: Option<seq<string>>,
    link: Option<seq<string>>)

  /** Feed items carry their size as text ('-1' when missing); scraped items as the number -1. */
  datatype Size = SizeText(text: string) | SizeNumber(bytes: int) | SizeUndefined

  /** `new Date(text)` of a feed item (text undefined when missing), or the number 1 of a scraped item. */
  datatype PubDate = DateOf(text: Option<string>) | DateNumber(value: int)

  datatype Item = Item(title: Option<string>, size: Size, pubDate: PubDate, link: string)

  datatype ScrapedItem = ScrapedItem(title: string, link: string)

  /** `xs.pop()` as a value: the last element, undefined for an empty array. */
  function Pop(xs: seq<string>): Option<string>
  {
    if |xs| == 0 then None else Some(xs[|xs| - 1])
  }

  /** `(field || default).pop()`: an absent field falls back to the default
      array; a present one, even an empty array, is truthy and is popped. */
  function PopOr(field: Option<seq<string>>, default: seq<string>): Option<string>
  {
    match field
    case None => Pop(default)
    case Some(xs) => Pop(xs)
  }

  /** The record built for one feed item. `encodeURI` is taken as the identity;
      `encodeURI(undefined)` is the text "undefined". */
  function NormaliseFeedItem(raw: RawItem): (it: Item)
    ensures raw.title.None? ==> it.title.None?
    ensures raw.size.None? ==> it.size == SizeText("-1")
    ensures raw.link.None? ==> it.link == ""
    ensures raw.pubDate.None? ==> it.pubDate == DateOf(None)
    ensures raw.title.Some? && |raw.title.value| > 0 ==> it.title == Some(raw.title.value[|raw.title.value| - 1])
    ensures raw.size.Some? && |raw.size.value| > 0 ==> it.size == SizeText(raw.size.value[|raw.size.value| - 1])
    ensures raw.link.Some? && |raw.link.value| > 0 ==> it.link == raw.link.value[|raw.link.value| - 1]
    ensures raw.pubDate.Some? && |raw.pubDate.value| > 0 ==> it.pubDate == DateOf(Some(raw.pubDate.value[|raw.pubDate.value| - 1]))
    ensures raw.title == Some([]) ==> it.title.None?
    ensures raw.link == Some([]) ==> it.link == "undefined"
    ensures raw.size == Some([]) ==> it.size == SizeUndefined
    ensures raw.pubDate == Some([]) ==> it.pubDate == DateOf(None)
  {
    Item(
      PopOr(raw.title, []),
      match PopOr(raw.size, ["-1"]) { case Some(t) => SizeText(t) case None => SizeUndefined },
      DateOf(PopOr(raw.pubDate, [])),
      match PopOr(raw.link, [""]) { case Some(t) => t case None => "undefined" })
  }

  /** One channel: an undefined `channel.item` is replaced by the empty list. */
  function NormaliseChannel(items: Option<seq<RawItem>>): (r: seq<Item>)
    ensures items.None? ==> r == []
    ensures items.Some? ==> |r| == |items.value|
    ensures items.Some? ==> forall i :: 0 <= i < |r| ==> r[i] == NormaliseFeedItem(items.value[i])
  {
    match items
    case None => []
    case Some(xs) => seq(|xs|, i requires 0 <= i < |xs| => NormaliseFeedItem(xs[i]))
  }

  /** The number of raw items in a list of channels (undefined lists count zero). */
  function ItemCount(channels: seq<Option<seq<RawItem>>>): nat
  {
    if |channels| == 0 then 0
    else (match channels[0] { case None => 0 case Some(xs) => |xs| }) + ItemCount(channels[1..])
  }

  /** All channels of one feed, flattened by `reduce((acc, el) => acc.concat(el), [])`. */
  function NormaliseChannels(channels: seq<Option<seq<RawItem>>>): (r: seq<Item>)
    ensures |r| == ItemCount(channels)
  {
    if |channels| == 0 then []
    else NormaliseChannel(channels[0]) + NormaliseChannels(channels[1..])
  }

  /** Flattening distributes over a split of the channel list, so every channel
      contributes its items, in channel order; in particular the left fold of
      the source, which appends one channel at a time, gives the same list. */
  lemma {:induction false} NormaliseChannelsAppend(a: seq<Option<seq<RawItem>>>, b: seq<Option<seq<RawItem>>>)
    ensures NormaliseChannels(a + b) == NormaliseChannels(a) + NormaliseChannels(b)
  {
    if |a| == 0 {
      assert a + b == b;
    } else {
      assert (a + b)[0] == a[0];
      assert (a + b)[1..] == a[1..] + b;
      NormaliseChannelsAppend(a[1..], b);
    }
  }

  /** A scraped item gets size -1 and publication date 1. */
  function NormaliseScraped(s: ScrapedItem): (it: Item)
    ensures it.size == SizeNumber(-1) && it.pubDate == DateNumber(1)
    ensures it.title == Some(s.title) && it.link == s.link
  {
    Item(Some(s.title), SizeNumber(-1), DateNumber(1), s.link)
  }

  function NormaliseScrapedAll(ss: seq<ScrapedItem>): (r: seq<Item>)
    ensures |r| == |ss|
    ensures forall i :: 0 <= i < |ss| ==> r[i] == NormaliseScraped(ss[i])
  {
    seq(|ss|, i requires 0 <= i < |ss| => NormaliseScraped(ss[i]))
  }
}
