/**
 * `log_conv_json_to_csv.py`: the same table as the text-log tool, built
 * from a JSON list of messages.  Each message is an object, modelled as
 * an ordered dictionary from keys to the text its value is written as.
 * The headers are numbered as they are first seen, in one pass; the rows
 * are then filled in by index.
 */
module LogConvJsonToCsv {
  import opened LogToCsv

  /**
   * The header loop: a key met for the first time gets number
   * `len(headers)`, so the numbers are the positions.
   */
  method JsonHeaders(messages: seq<ODict<string>>) returns (headers: ODict<nat>)
    ensures Keys(headers) == HeaderNames(messages)
    ensures Numbered(headers)
  {
    headers := [];
    for a := 0 to |messages|
      invariant Keys(headers) == HeaderNames(messages[..a])
      invariant Numbered(headers)
    {
      var message := messages[a];
      for b := 0 to |message|
        invariant Keys(headers) == AddNames(HeaderNames(messages[..a]), Keys(message)[..b])
        invariant Numbered(headers)
      {
        ghost var before := headers;
        var key := message[b].0;
        if key !in Keys(headers) {
          headers := Put(headers, key, |headers|);
        }
        KeyStep(HeaderNames(messages[..a]), message, b, before, headers);
      }
      HeaderNamesStep(messages, a);
    }
    assert messages[..|messages|] == messages;
  }

  // One more key of a message: a new one is numbered len(headers).
  lemma KeyStep(seen: seq<string>, message: ODict<string>, b: nat, before: ODict<nat>, after: ODict<nat>)
    requires b < |message| && Numbered(before) && Keys(before) == AddNames(seen, Keys(message)[..b])
    requires after == if message[b].0 in Keys(before) then before else Put(before, message[b].0, |before|)
    ensures Numbered(after) && Keys(after) == AddNames(seen, Keys(message)[..b + 1])
  {
    AddNamesStep(seen, Keys(message), b);
    if message[b].0 !in Keys(before) {
      NumberNew(before, message[b].0);
    }
  }

  /**
   * The whole conversion: the header row (the keys in index order), then
   * one row per message in order, each value at its key's index and ""
   * elsewhere.
   */
  method JsonToRows(messages: seq<ODict<string>>) returns (rows: seq<seq<string>>)
    ensures rows == TableOf(messages)
  {
    var headers := JsonHeaders(messages);
    HeaderNamesProperties(messages);
    rows := [Keys(headers)];
    for r := 0 to |messages|
      invariant |rows| == r + 1 && rows[0] == HeaderNames(messages)
      invariant forall s :: 0 <= s < r ==> rows[s + 1] == RowOf(HeaderNames(messages), messages[s])
    {
      forall k | k in Keys(messages[r])
        ensures k in Keys(headers)
      {
      }
      var row := MakeRow(headers, messages[r]);
      rows := rows + [row];
    }
  }
}
