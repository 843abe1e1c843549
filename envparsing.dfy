/**
 * Parsing of the monitor's environment settings, shared by the current configuration service and
 * the older metrics module: the comma-separated list of node URLs and the cron string of the
 * polling schedule.
 */
module EnvParsing {
  import opened Wrappers
  import opened Strings

  /** Every piece trimmed, in order. */
  function TrimAll(pieces: seq<string>): (r: seq<string>)
    ensures |r| == |pieces| && forall k :: 0 <= k < |r| ==> r[k] == Trim(pieces[k])
  {
    if pieces == [] then [] else [Trim(pieces[0])] + TrimAll(pieces[1..])
  }

  /** The non-empty pieces, in order (`filter(url => url.length > 0)`). */
  function NonEmpty(pieces: seq<string>): (r: seq<string>)
    ensures |r| <= |pieces|
    ensures forall x :: x in r <==> x in pieces && x != ""
  {
    if pieces == [] then []
    else if pieces[0] == "" then NonEmpty(pieces[1..])
    else [pieces[0]] + NonEmpty(pieces[1..])
  }

  /** Trimming a concatenation trims each part, in place. */
  lemma TrimAllAppend(a: seq<string>, b: seq<string>)
    ensures TrimAll(a + b) == TrimAll(a) + TrimAll(b)
  {
  }

  /** The filter keeps order and repetitions: it works on each part of a concatenation separately. */
  lemma {:induction false} NonEmptyAppend(a: seq<string>, b: seq<string>)
    ensures NonEmpty(a + b) == NonEmpty(a) + NonEmpty(b)
  {
    if a == [] {
      assert a + b == b;
    } else {
      assert (a + b)[1..] == a[1..] + b;
      NonEmptyAppend(a[1..], b);
    }
  }

  /** One piece is kept exactly when it is not empty. */
  lemma NonEmptySingle(x: string)
    ensures NonEmpty([x]) == if x == "" then [] else [x]
  {
  }

  /** Keeping the non-empty pieces of a list that has no empty piece keeps the whole list. */
  lemma {:induction false} NonEmptyKeepsAll(pieces: seq<string>)
    requires forall k :: 0 <= k < |pieces| ==> pieces[k] != ""
    ensures NonEmpty(pieces) == pieces
  {
    if pieces != [] {
      NonEmptyKeepsAll(pieces[1..]);
    }
  }

  /** A node URL as it can come out of the list: non-empty, trimmed and free of commas. */
  predicate IsListEntry(url: string)
  {
    url != "" && IsTrimmed(url) && ',' !in url
  }

  /**
   * `s.split(',').map(url => url.trim()).filter(url => url.length > 0)`: the list holds exactly
   * the non-empty trimmed pieces, each one non-empty, trimmed and free of commas.
   */
  function NodeURLList(raw: string): (urls: seq<string>)
    ensures forall k :: 0 <= k < |urls| ==> IsListEntry(urls[k])
    ensures forall u :: u in urls <==> u != "" && u in TrimAll(Split(raw, ','))
  {
    var urls := NonEmpty(TrimAll(Split(raw, ',')));
    forall k | 0 <= k < |urls| ensures IsListEntry(urls[k]) {
      TrimmedPieceIsEntry(Split(raw, ','), urls[k]);
    }
    urls
  }

  /** A non-empty trimmed piece of a comma split is a list entry. */
  lemma TrimmedPieceIsEntry(pieces: seq<string>, url: string)
    requires forall k :: 0 <= k < |pieces| ==> ',' !in pieces[k]
    requires url in TrimAll(pieces) && url != ""
    ensures IsListEntry(url)
  {
    var trimmed := TrimAll(pieces);
    var j :| 0 <= j < |trimmed| && trimmed[j] == url;
  }

  /**
   * The URLs on either side of a comma are listed one after the other: the list keeps the
   * setting's order and its repeated URLs.
   */
  lemma NodeURLListConcat(a: string, b: string)
    ensures NodeURLList(a + [','] + b) == NodeURLList(a) + NodeURLList(b)
  {
    SplitAppend(a, ',', b);
    TrimAllAppend(Split(a, ','), Split(b, ','));
    NonEmptyAppend(TrimAll(Split(a, ',')), TrimAll(Split(b, ',')));
  }

  /** A setting without a comma lists its one trimmed URL, or nothing when that is empty. */
  lemma NodeURLListPiece(raw: string)
    requires ',' !in raw
    ensures NodeURLList(raw) == if Trim(raw) == "" then [] else [Trim(raw)]
  {
    SplitWithoutSeparator(raw, ',');
    assert TrimAll([raw]) == [Trim(raw)];
    NonEmptySingle(Trim(raw));
  }

  /**
   * A setting `b,,a,b` lists `b`, `a`, `b`: the empty entry is dropped, and the order and the
   * repeated URL survive.
   */
  lemma NodeURLListKeepsOrder(a: string, b: string)
    requires IsListEntry(a) && IsListEntry(b)
    ensures NodeURLList(b + ",," + a + "," + b) == [b, a, b]
  {
    var ab := a + [','] + b;
    var rest := [] + [','] + ab;
    CommaShape(a, b);
    NodeURLListPiece(a);
    NodeURLListPiece(b);
    NodeURLListPiece([]);
    assert NodeURLList(a) == [a] && NodeURLList(b) == [b] && NodeURLList([]) == [];
    NodeURLListConcat(a, b);
    assert NodeURLList(ab) == [a, b];
    NodeURLListConcat([], ab);
    assert NodeURLList(rest) == [a, b];
    NodeURLListConcat(b, rest);
    assert NodeURLList(b + [','] + rest) == [b] + [a, b];
  }

  /** The setting `b,,a,b` cut at its commas. */
  lemma CommaShape(a: string, b: string)
    ensures b + ",," + a + "," + b == b + [','] + ([] + [','] + (a + [','] + b))
    ensures [a] + [b] == [a, b] && [b] + [a, b] == [b, a, b]
  {
  }

  /** Joining a list of entries with commas and parsing it back gives the same list, in order. */
  lemma NodeURLListRoundTrip(urls: seq<string>)
    requires |urls| >= 1 && forall k :: 0 <= k < |urls| ==> IsListEntry(urls[k])
    ensures NodeURLList(Join(urls, ',')) == urls
  {
    SplitJoin(urls, ',');
    assert TrimAll(urls) == urls;
    NonEmptyKeepsAll(urls);
  }

  /** `parseInt(value) || 10`, given what `parseInt` returned (`None` for NaN). */
  function CronStep(parsed: Option<int>): (step: int)
    ensures step != 0
    ensures parsed.Some? && parsed.value != 0 ==> step == parsed.value
    ensures parsed.None? || parsed == Some(0) ==> step == 10
  {
    if parsed.Some? && parsed.value != 0 then parsed.value else 10
  }

  // The six-field cron string "*/<step> * * * * *": every `step` seconds.
  function CronString(step: int): string
  {
    "*/" + IntToString(step) + " * * * * *"
  }

  // The step of a cron string of the form "*/<step> * * * * *", if it has that form and the
  // step is written as JavaScript prints an integer (no leading zeros, no "-0").
  function CronStringStep(cron: string): Option<int>
  {
    if |cron| >= 12 && cron[..2] == "*/" && cron[|cron| - 10..] == " * * * * *"
    then
      var text := cron[2..|cron| - 10];
      var step := ParseInt(text);
      if step.Some? && IntToString(step.value) == text then step else None
    else None
  }

  /** Reading the step back out of a built cron string gives the step. */
  lemma CronStringReadBack(step: int)
    ensures CronStringStep(CronString(step)) == Some(step)
  {
    var digits := IntToString(step);
    var cron := CronString(step);
    assert |digits| >= 1;
    assert cron[..2] == "*/";
    assert cron[|cron| - 10..] == " * * * * *";
    assert cron[2..|cron| - 10] == digits;
    IntToStringRoundTrip(step);
  }

  /** A cron string that reads back as a step is exactly the one built from that step. */
  lemma CronStringStepExact(cron: string, step: int)
    requires CronStringStep(cron) == Some(step)
    ensures cron == CronString(step)
  {
    var text := cron[2..|cron| - 10];
    assert text == IntToString(step);
    assert cron == cron[..2] + text + cron[|cron| - 10..];
  }
}
