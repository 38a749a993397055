/** Callback data of the rus_bot inline buttons. A button's data is a prefix
    of words separated by '_' followed by the id of the user's message; the
    download handler picks a branch by prefix and reads the id back with
    `split('_')` at a fixed index. */
module Callbacks {
  import opened Text

  /** The words of the four prefixes the handler tests, in its order. */
  const CleanedWords: seq<string> := ["download", "cleaned", "photos"]
  const ReadyWords: seq<string> := ["download", "ready", "photos"]
  const ZipWords: seq<string> := ["download", "zip"]
  const PhotosWords: seq<string> := ["download", "photos"]

  /** A prefix is its words joined by '_' with a trailing '_'. */
  function Prefix(words: seq<string>): string {
    Join(words, "_") + "_"
  }

  /** The data of a button for message `id` (`f"<prefix>{id}"`). */
  function ButtonData(words: seq<string>, id: string): string {
    Prefix(words) + id
  }

  predicate NoUnderscore(w: string) {
    '_' !in w
  }

  predicate PlainWords(words: seq<string>) {
    |words| >= 1 && forall k :: 0 <= k < |words| ==> NoUnderscore(words[k])
  }

  /** What the handler does with the data; `id` is the part it read back. */
  datatype Action =
    | DownloadCleaned(id: string)
    | DownloadReady(id: string)
    | DownloadZip(id: string)
    | DownloadPhotos(id: string)
    | Unhandled

  /** Splitting data that starts with a prefix gives the prefix's words and
      then the pieces of the rest. */
  lemma SplitAfterPrefix(words: seq<string>, rest: string)
    requires PlainWords(words)
    ensures Split(Prefix(words) + rest, '_') == words + Split(rest, '_')
  {
    SplitJoin(words, '_');
    assert Prefix(words) + rest == Join(words, "_") + ['_'] + rest;
    SplitAtSeparator(Join(words, "_"), rest, '_');
  }

  /** `callback_data.split('_')[index]` for data that starts with the prefix
      of `words`: the split always has more than `|words|` pieces. */
  function PieceAfter(words: seq<string>, data: string): (r: string)
    requires PlainWords(words) && StartsWith(data, Prefix(words))
    ensures r == Split(data[|Prefix(words)|..], '_')[0]
    ensures NoUnderscore(r)
  {
    var rest := data[|Prefix(words)|..];
    assert data == Prefix(words) + rest;
    SplitAfterPrefix(words, rest);
    Split(data, '_')[|words|]
  }

  lemma WordsArePlain()
    ensures PlainWords(CleanedWords) && PlainWords(ReadyWords)
    ensures PlainWords(ZipWords) && PlainWords(PhotosWords)
  {
    assert forall k :: 0 <= k < |CleanedWords| ==> NoUnderscore(CleanedWords[k]) by {
      assert NoUnderscore("download") && NoUnderscore("cleaned") && NoUnderscore("photos");
    }
    assert NoUnderscore("ready") && NoUnderscore("zip");
  }

  /** `handle_download`: the first prefix the data starts with picks the branch;
      the id is read at index 3 for the three-word prefixes and at index 2
      for the two-word ones, as the handler does. */
  function Dispatch(data: string): (r: Action)
    ensures r.Unhandled? <==>
      !StartsWith(data, Prefix(CleanedWords)) && !StartsWith(data, Prefix(ReadyWords)) &&
      !StartsWith(data, Prefix(ZipWords)) && !StartsWith(data, Prefix(PhotosWords))
  {
    WordsArePlain();
    if StartsWith(data, Prefix(CleanedWords)) then DownloadCleaned(PieceAfter(CleanedWords, data))
    else if StartsWith(data, Prefix(ReadyWords)) then DownloadReady(PieceAfter(ReadyWords, data))
    else if StartsWith(data, Prefix(ZipWords)) then DownloadZip(PieceAfter(ZipWords, data))
    else if StartsWith(data, Prefix(PhotosWords)) then DownloadPhotos(PieceAfter(PhotosWords, data))
    else Unhandled
  }

  /** The branch reads the id exactly where the handler indexes the split
      data: index 3 after the three-word prefixes, index 2 after the two-word
      ones; the index always exists. */
  lemma DispatchReadsSplitIndex(data: string)
    ensures (Dispatch(data).DownloadCleaned? || Dispatch(data).DownloadReady?) ==>
      3 < |Split(data, '_')| && Dispatch(data).id == Split(data, '_')[3]
    ensures (Dispatch(data).DownloadZip? || Dispatch(data).DownloadPhotos?) ==>
      2 < |Split(data, '_')| && Dispatch(data).id == Split(data, '_')[2]
  {
    WordsArePlain();
    var all := [CleanedWords, ReadyWords, ZipWords, PhotosWords];
    forall w | w in all && StartsWith(data, Prefix(w))
      ensures Split(data, '_') == w + Split(data[|Prefix(w)|..], '_')
    {
      assert data == Prefix(w) + data[|Prefix(w)|..];
      SplitAfterPrefix(w, data[|Prefix(w)|..]);
    }
  }

  /** A prefix whose first word is "download" starts with "download_" and
      continues with the first letter of its second word. */
  lemma PrefixShape(words: seq<string>)
    requires |words| >= 2 && words[0] == "download" && words[1] != []
    ensures |Prefix(words)| > 9 && Prefix(words)[..9] == "download_"
    ensures Prefix(words)[9] == words[1][0]
  {
    var tail := Join(words[1..], "_");
    assert Join(words, "_") == words[0] + "_" + tail;
    assert Join(words[1..], "_")[0] == words[1][0] by {
      if |words[1..]| > 1 {
        assert tail == words[1] + "_" + Join(words[2..], "_");
      }
    }
  }

  /** At most one of the four prefixes matches any data, so the order of the
      handler's tests does not matter. */
  lemma AtMostOnePrefix(data: string, a: seq<string>, b: seq<string>)
    requires a in [CleanedWords, ReadyWords, ZipWords, PhotosWords]
    requires b in [CleanedWords, ReadyWords, ZipWords, PhotosWords]
    requires StartsWith(data, Prefix(a)) && StartsWith(data, Prefix(b))
    ensures a == b
  {
    PrefixShape(a);
    PrefixShape(b);
    assert data[9] == Prefix(a)[9] && data[9] == Prefix(b)[9];
  }

  /** A button made for a message id without '_' (any decimal message id) is
      dispatched to its own branch with that same id. */
  lemma ButtonRoundTrip(id: string)
    requires NoUnderscore(id)
    ensures Dispatch(ButtonData(CleanedWords, id)) == DownloadCleaned(id)
    ensures Dispatch(ButtonData(ReadyWords, id)) == DownloadReady(id)
    ensures Dispatch(ButtonData(ZipWords, id)) == DownloadZip(id)
    ensures Dispatch(ButtonData(PhotosWords, id)) == DownloadPhotos(id)
  {
    WordsArePlain();
    SplitWithoutSeparator(id, '_');
    var all := [CleanedWords, ReadyWords, ZipWords, PhotosWords];
    forall w | w in all
      ensures StartsWith(ButtonData(w, id), Prefix(w))
      ensures ButtonData(w, id)[|Prefix(w)|..] == id
    {
      assert ButtonData(w, id)[..|Prefix(w)|] == Prefix(w);
    }
    forall w, v | w in all && v in all && StartsWith(ButtonData(w, id), Prefix(v))
      ensures v == w
    {
      AtMostOnePrefix(ButtonData(w, id), w, v);
    }
  }

  /** Message ids are integers; their decimal text survives the round trip,
      so the stored entries keyed by that id are found again. */
  lemma MessageIdRoundTrip(messageId: nat)
    ensures Dispatch(ButtonData(ReadyWords, NatToDecimal(messageId))) == DownloadReady(NatToDecimal(messageId))
    ensures Dispatch(ButtonData(ZipWords, NatToDecimal(messageId))).DownloadZip?
    ensures Dispatch(ButtonData(ZipWords, NatToDecimal(messageId))).id == NatToDecimal(messageId)
    ensures ParseDecimal(Dispatch(ButtonData(ZipWords, NatToDecimal(messageId))).id) == messageId
  {
    var t := NatToDecimal(messageId);
    assert NoUnderscore(t) by {
      forall k | 0 <= k < |t| ensures t[k] != '_' {
        assert IsDigit(t[k]);
      }
    }
    ButtonRoundTrip(t);
    DecimalRoundTrip(messageId);
  }
}
