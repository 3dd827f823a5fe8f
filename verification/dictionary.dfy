/** Dictionary helpers of the card form: the link to the Merriam-Webster
    page of a word, the pronunciation-audio location, the reading of an
    Elementary Dictionary response, and the collection of example
    sentences. The network request itself is not modelled; a response is
    an input. `encodeURIComponent` is an opaque function parameter. */
module Dictionary {
  import opened Wrappers
  import opened JsText

  const WebsterPrefix := "https://www.merriam-webster.com/dictionary/"
  const WebsterSuffix := "?ref=kidsdictionary"

  /** `getMerriamWebsterUrl`: empty for a blank word; otherwise the page of
      the trimmed, lower-cased, encoded word with the kids-dictionary
      referrer. */
  function MerriamWebsterUrl(word: string, encode: string -> string): (r: string)
    ensures r == [] <==> IsBlank(word)
    ensures !IsBlank(word) ==> StartsWith(r, WebsterPrefix) && |r| >= |WebsterPrefix| + |WebsterSuffix|
    ensures !IsBlank(word) ==> r[|r| - |WebsterSuffix|..] == WebsterSuffix
  {
    if Trim(word) == [] then []
    else WebsterPrefix + encode(ToLower(Trim(word))) + WebsterSuffix
  }

  /** The encoded word inside a dictionary link. */
  function WordInUrl(url: string): string
    requires |url| >= |WebsterPrefix| + |WebsterSuffix|
  {
    url[|WebsterPrefix|..|url| - |WebsterSuffix|]
  }

  /** The link carries the word: cutting the fixed prefix and suffix off
      gives back the encoded, trimmed, lower-cased word. */
  lemma UrlCarriesWord(word: string, encode: string -> string)
    requires !IsBlank(word)
    ensures WordInUrl(MerriamWebsterUrl(word, encode)) == encode(ToLower(Trim(word)))
  {
  }

  /** Lower-casing neither creates nor removes white space. */
  lemma LowerKeepsWhiteSpace(c: char)
    ensures IsWhiteSpace(LowerChar(c)) <==> IsWhiteSpace(c)
  {
  }

  /** Trimming a string that neither starts nor ends with white space
      changes nothing. */
  lemma TrimOfTrimmed(s: string)
    requires s == [] || (!IsWhiteSpace(s[0]) && !IsWhiteSpace(s[|s| - 1]))
    ensures Trim(s) == s
  {
    assert TrimStart(s) == s;
  }

  /** Surrounding white space and letter case do not matter: the link of
      the normalised word is the link of the word. */
  lemma NormalisedWordSameUrl(word: string, encode: string -> string)
    ensures MerriamWebsterUrl(ToLower(Trim(word)), encode) == MerriamWebsterUrl(word, encode)
  {
    var t := Trim(word);
    var l := ToLower(t);
    TrimIsInfix(word);
    if t != [] {
      LowerKeepsWhiteSpace(t[0]);
      LowerKeepsWhiteSpace(t[|t| - 1]);
    }
    TrimOfTrimmed(l);
    ToLowerIdempotent(t);
  }

  /** The audio subfolder rule of `fetchDictionaryData` as written: "bix"
      for names starting "bix", "gg" for names starting "gg", otherwise the
      first character. Names starting with a digit get that digit. */
  function AudioFolderAsWritten(audio: string): (r: string)
    requires audio != []
    ensures StartsWith(audio, "bix") ==> r == "bix"
    ensures !StartsWith(audio, "bix") && StartsWith(audio, "gg") ==> r == "gg"
    ensures !StartsWith(audio, "bix") && !StartsWith(audio, "gg") ==> r == [audio[0]]
  {
    if |audio| >= 3 && audio[0] == 'b' && audio[1] == 'i' && audio[2] == 'x' then "bix"
    else if |audio| >= 2 && audio[0] == 'g' && audio[1] == 'g' then "gg"
    else [audio[0]]
  }

  predicate IsDigit(c: char) {
    '0' <= c <= '9'
  }

  /** The rule the card form itself applies to the same audio names: as
      above, but names starting with a digit live in "number". */
  function AudioFolder(audio: string): (r: string)
    requires audio != []
    ensures StartsWith(audio, "bix") ==> r == "bix"
    ensures !StartsWith(audio, "bix") && StartsWith(audio, "gg") ==> r == "gg"
    ensures !StartsWith(audio, "bix") && !StartsWith(audio, "gg") && IsDigit(audio[0]) ==> r == "number"
    ensures !StartsWith(audio, "bix") && !StartsWith(audio, "gg") && !IsDigit(audio[0]) ==> r == [audio[0]]
  {
    if StartsWith(audio, "bix") then "bix"
    else if StartsWith(audio, "gg") then "gg"
    else if IsDigit(audio[0]) then "number"
    else [audio[0]]
  }

  /** The two rules differ exactly on names that start with a digit. */
  lemma AudioFoldersAgreeUnlessDigit(audio: string)
    requires audio != []
    ensures AudioFolderAsWritten(audio) == AudioFolder(audio) <==> !IsDigit(audio[0])
  {
  }

  /** "3d000001": the dictionary helper looks in folder "3", the card form
      in "number". */
  lemma DigitNameFolders()
    ensures AudioFolderAsWritten("3d000001") == "3"
    ensures AudioFolder("3d000001") == "number"
  {
    assert !StartsWith("3d000001", "bix") by { assert "3d000001"[0] != "bix"[0]; }
    assert !StartsWith("3d000001", "gg") by { assert "3d000001"[0] != "gg"[0]; }
  }

  const AudioBase := "https://media.merriam-webster.com/audio/prons/en/us/mp3/"

  /** The file `<base><folder>/<name>.mp3`: the base, then the folder,
      then the name and extension, each recoverable by slicing. */
  function FileUrl(folder: string, audio: string): (r: string)
    ensures StartsWith(r, AudioBase)
    ensures var tail := "/" + audio + ".mp3";
      |r| == |AudioBase| + |folder| + |tail| && r[|r| - |tail|..] == tail
    ensures r[|AudioBase|..|r| - |audio| - 5] == folder
  {
    var tail := "/" + audio + ".mp3";
    var r := AudioBase + folder + tail;
    assert r == (AudioBase + folder) + tail;
    assert r[..|AudioBase|] == AudioBase;
    assert r[|r| - |tail|..] == tail;
    assert r[|AudioBase|..|r| - |audio| - 5] == folder;
    r
  }

  /** The pronunciation file that `fetchDictionaryData` builds, with its
      own folder rule. */
  function AudioUrl(audio: string): (r: string)
    requires audio != []
    ensures StartsWith(r, AudioBase)
    ensures var tail := "/" + audio + ".mp3";
      |r| >= |AudioBase| + |tail| && r[|r| - |tail|..] == tail
    ensures r[|AudioBase|..|r| - |audio| - 5] == AudioFolderAsWritten(audio)
  {
    FileUrl(AudioFolderAsWritten(audio), audio)
  }

  /** The same file with the card form's folder rule. */
  function CorrectedAudioUrl(audio: string): (r: string)
    requires audio != []
    ensures StartsWith(r, AudioBase)
    ensures var tail := "/" + audio + ".mp3";
      |r| >= |AudioBase| + |tail| && r[|r| - |tail|..] == tail
    ensures r[|AudioBase|..|r| - |audio| - 5] == AudioFolder(audio)
  {
    FileUrl(AudioFolder(audio), audio)
  }

  /** The two links differ exactly for audio names that start with a digit. */
  lemma AudioUrlsAgreeUnlessDigit(audio: string)
    requires audio != []
    ensures AudioUrl(audio) == CorrectedAudioUrl(audio) <==> !IsDigit(audio[0])
  {
    var a, c := AudioUrl(audio), CorrectedAudioUrl(audio);
    AudioFoldersAgreeUnlessDigit(audio);
    if a == c {
      assert a[|AudioBase|..|a| - |audio| - 5] == c[|AudioBase|..|c| - |audio| - 5];
    }
  }

  /** A headword whose audio name is "3d000001" gets its link in folder
      "3", where the pronunciation lives in "number". */
  lemma DigitNameEntryLink()
    ensures EntryOf("w", None, Some(Pronunciation(None, Some("3d000001"))), None, None).audioUrl
      == Some(AudioBase + "3/3d000001.mp3")
  {
    DigitNameFolders();
    var e := EntryOf("w", None, Some(Pronunciation(None, Some("3d000001"))), None, None);
    assert e.audioUrl == Some(AudioUrl("3d000001"));
    assert AudioUrl("3d000001") == AudioBase + "3" + ("/" + "3d000001" + ".mp3");
    assert AudioBase + "3" + ("/" + "3d000001" + ".mp3") == AudioBase + "3/3d000001.mp3";
  }

  /** The first pronunciation of a headword: its respelling and audio name. */
  datatype Pronunciation = Pronunciation(mw: Option<string>, audio: Option<string>)

  /** One element of the response array: a spelling suggestion (a bare
      string) or a headword entry. */
  datatype RawEntry =
    | Suggestion(text: string)
    | Headword(metaId: Option<string>, pronunciation: Option<Pronunciation>, fl: Option<string>, shortdef: Option<seq<string>>)

  /** The parsed response body. */
  datatype Response = NotAnArray | ArrayResponse(entries: seq<RawEntry>)

  datatype Definition = Definition(definition: string, example: Option<string>)
  datatype Meaning = Meaning(partOfSpeech: string, definitions: seq<Definition>)
  datatype DictionaryEntry = DictionaryEntry(word: string, phonetic: Option<string>, audioUrl: Option<string>, meanings: seq<Meaning>)

  /** JavaScript truthiness of an optional string: present and non-empty. */
  predicate Truthy(s: Option<string>) {
    s.Some? && s.value != []
  }

  /** The dictionary entry built from a headword: the meta id (or the word
      looked up), the respelling, the audio link when there is an audio
      name, and one meaning when there is a part of speech, with one
      definition per short definition and no examples. */
  function EntryOf(word: string, metaId: Option<string>, pron: Option<Pronunciation>, fl: Option<string>, shortdef: Option<seq<string>>): (r: DictionaryEntry)
    ensures r.word == if Truthy(metaId) then metaId.value else word
    ensures r.phonetic.Some? <==> pron.Some? && Truthy(pron.value.mw)
    ensures r.audioUrl.Some? <==> pron.Some? && Truthy(pron.value.audio)
    ensures r.audioUrl.Some? ==> r.audioUrl.value == AudioUrl(pron.value.audio.value)
    ensures r.meanings == [] <==> !Truthy(fl)
    ensures Truthy(fl) ==> |r.meanings| == 1 && r.meanings[0].partOfSpeech == fl.value
    ensures Truthy(fl) ==> var defs := r.meanings[0].definitions;
      && |defs| == (if shortdef.Some? then |shortdef.value| else 0)
      && forall i :: 0 <= i < |defs| ==> defs[i] == Definition(shortdef.value[i], None)
  {
    var phonetic := if pron.Some? && Truthy(pron.value.mw) then pron.value.mw else None;
    var audioUrl := if pron.Some? && Truthy(pron.value.audio) then Some(AudioUrl(pron.value.audio.value)) else None;
    var defs := match shortdef
      case None => []
      case Some(ds) => seq(|ds|, i requires 0 <= i < |ds| => Definition(ds[i], None));
    var meanings := if Truthy(fl) then [Meaning(fl.value, defs)] else [];
    DictionaryEntry(if Truthy(metaId) then metaId.value else word, phonetic, audioUrl, meanings)
  }

  /** The response handling of `fetchDictionaryData`: no entry unless the
      body is a non-empty array whose first element is a headword entry. */
  function ParseResponse(word: string, data: Response): (r: Option<DictionaryEntry>)
    ensures r.Some? <==> data.ArrayResponse? && |data.entries| > 0 && data.entries[0].Headword?
    ensures r.Some? ==> var h := data.entries[0];
      r.value == EntryOf(word, h.metaId, h.pronunciation, h.fl, h.shortdef)
  {
    match data
    case NotAnArray => None
    case ArrayResponse(entries) =>
      if |entries| == 0 then None
      else match entries[0]
        case Suggestion(_) => None
        case Headword(metaId, pron, fl, shortdef) => Some(EntryOf(word, metaId, pron, fl, shortdef))
  }

  /** The defined examples of a list of definitions, in order. */
  function DefinitionExamples(ds: seq<Definition>): (r: seq<string>)
    ensures |r| <= |ds|
    ensures forall x :: x in r ==> x != [] && exists d :: d in ds && d.example == Some(x)
    ensures forall d :: d in ds && Truthy(d.example) ==> d.example.value in r
  {
    if |ds| == 0 then []
    else
      var d := ds[|ds| - 1];
      assert ds == ds[..|ds| - 1] + [d];
      DefinitionExamples(ds[..|ds| - 1]) + (if Truthy(d.example) then [d.example.value] else [])
  }

  /** The examples of a concatenation are the examples of each part, one
      after the other; a single definition gives its example exactly when it
      is truthy. Together these fix the result, order included. */
  lemma {:induction false} DefinitionExamplesAppend(a: seq<Definition>, b: seq<Definition>)
    ensures DefinitionExamples(a + b) == DefinitionExamples(a) + DefinitionExamples(b)
    ensures |b| == 1 ==> DefinitionExamples(b) == if Truthy(b[0].example) then [b[0].example.value] else []
    decreases |b|
  {
    if |b| > 0 {
      var b' := b[..|b| - 1];
      assert (a + b)[..|a + b| - 1] == a + b';
      assert b[..|b| - 1] == b';
      DefinitionExamplesAppend(a, b');
      if |b| == 1 {
        assert b' == [];
      }
    } else {
      assert a + b == a;
    }
  }

  /** The defined examples of a list of meanings, meaning by meaning. */
  function MeaningExamples(ms: seq<Meaning>): (r: seq<string>)
  {
    if |ms| == 0 then []
    else MeaningExamples(ms[..|ms| - 1]) + DefinitionExamples(ms[|ms| - 1].definitions)
  }

  /** Every definition without an example contributes nothing. */
  lemma {:induction false} NoExamplesNoSentences(ms: seq<Meaning>)
    requires forall m, d :: m in ms && d in m.definitions ==> d.example.None?
    ensures MeaningExamples(ms) == []
  {
    if |ms| > 0 {
      NoExamplesNoSentences(ms[..|ms| - 1]);
      NoExamplesInDefinitions(ms[|ms| - 1].definitions);
    }
  }

  lemma {:induction false} NoExamplesInDefinitions(ds: seq<Definition>)
    requires forall d :: d in ds ==> d.example.None?
    ensures DefinitionExamples(ds) == []
  {
    if |ds| > 0 {
      NoExamplesInDefinitions(ds[..|ds| - 1]);
    }
  }

  /** An entry read from a response has no example sentences: the reader
      never fills `example` in. */
  lemma ParsedEntriesHaveNoExamples(word: string, data: Response)
    requires ParseResponse(word, data).Some?
    ensures MeaningExamples(ParseResponse(word, data).value.meanings) == []
  {
    NoExamplesNoSentences(ParseResponse(word, data).value.meanings);
  }

  /** `extractExampleSentences`: the two nested `forEach` loops, pushing
      every truthy example. The result is the defined examples in
      meaning-then-definition order. */
  method ExtractExampleSentences(entry: DictionaryEntry) returns (examples: seq<string>)
    ensures examples == MeaningExamples(entry.meanings)
  {
    examples := [];
    var i := 0;
    while i < |entry.meanings|
      invariant 0 <= i <= |entry.meanings|
      invariant examples == MeaningExamples(entry.meanings[..i])
    {
      examples := PushDefinitionExamples(examples, entry.meanings[i].definitions);
      assert entry.meanings[..i + 1][..i] == entry.meanings[..i];
      i := i + 1;
    }
    assert entry.meanings[..i] == entry.meanings;
  }

  /** The inner `forEach` of `extractExampleSentences`: push the truthy
      example of each definition, in order. */
  method PushDefinitionExamples(before: seq<string>, defs: seq<Definition>) returns (examples: seq<string>)
    ensures examples == before + DefinitionExamples(defs)
  {
    examples := before;
    var j := 0;
    while j < |defs|
      invariant 0 <= j <= |defs|
      invariant examples == before + DefinitionExamples(defs[..j])
    {
      var d := defs[j];
      var pushed := if Truthy(d.example) then [d.example.value] else [];
      examples := examples + pushed;
      assert examples == before + (DefinitionExamples(defs[..j]) + pushed);
      DefinitionExamplesAppend(defs[..j], [d]);
      assert defs[..j + 1] == defs[..j] + [d];
      j := j + 1;
    }
    assert defs[..j] == defs;
  }
}
