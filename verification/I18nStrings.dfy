/** The generated string tables (scripts/gen_i18n.py, generate_strings_cpp) and the lookup the
    firmware makes in them (lib/I18n/I18n.cpp). */
module I18nStrings {
  import opened Utf8
  import opened CppLiterals
  import opened I18nEscape
  import opened I18nWrap
  import opened I18nExact

  const MAX_OFFSET := 0x7FFF
  const ENGLISH_FLAG := 0x8000

  /** What is printed for one language: its offsets and the content of its data lines. */
  datatype Emitted = Emitted(offsets: seq<nat>, data: seq<string>)

  datatype Generated = Written(languages: seq<Emitted>) | BlobTooBig(language: nat)

  /** One row of translations per language, English first, one column per key. */
  predicate IsTable(table: seq<seq<string>>) {
    table != [] && forall l :: 0 <= l < |table| ==> |table[l]| == |table[0]|
  }

  // ---------------------------------------------------------------------------------------
  // What each language holds.
  // ---------------------------------------------------------------------------------------

  function Blob(strings: seq<string>): seq<byte> {
    if strings == [] then [] else Encode(strings[0]) + [0] + Blob(strings[1..])
  }

  lemma {:induction false} BlobConcat(a: seq<string>, b: seq<string>)
    ensures Blob(a + b) == Blob(a) + Blob(b)
  {
    hide Encode;
    if a == [] {
      assert a + b == b;
    } else {
      assert (a + b)[1..] == a[1..] + b;
      BlobConcat(a[1..], b);
      assert Encode(a[0]) + [0] + (Blob(a[1..]) + Blob(b)) == (Encode(a[0]) + [0] + Blob(a[1..])) + Blob(b);
    }
  }

  lemma EmptyBlob()
    ensures Blob([]) == []
  {
  }

  lemma BlobPush(a: seq<string>, s: string)
    ensures Blob(a + [s]) == Blob(a) + Encode(s) + [0]
  {
    hide Encode;
    BlobConcat(a, [s]);
    assert [s][1..] == [];
    assert Blob([s]) == Encode(s) + [0] + Blob([]);
  }

  /** The first n strings, without those that are the English ones. */
  function Own(strings: seq<string>, english: seq<string>, n: nat): seq<string>
    requires n <= |strings| && |strings| == |english|
  {
    if n == 0 then []
    else Own(strings, english, n - 1) + if strings[n - 1] == english[n - 1] then [] else [strings[n - 1]]
  }

  /** The strings in a language's blob. */
  function BlobStrings(table: seq<seq<string>>, language: nat): seq<string>
    requires IsTable(table) && language < |table|
  {
    if language == 0 then table[0] else Own(table[language], table[0], |table[0]|)
  }

  predicate Fits(table: seq<seq<string>>, language: nat)
    requires IsTable(table) && language < |table|
  {
    |Blob(BlobStrings(table, language))| <= MAX_OFFSET
  }

  /** Bitwise or with bit 15. */
  function WithEnglishFlag(offset: nat): nat {
    if offset / ENGLISH_FLAG % 2 == 1 then offset else offset + ENGLISH_FLAG
  }

  function EnglishOffset(english: seq<string>, key: nat): nat
    requires key <= |english|
  {
    |Blob(english[..key])|
  }

  function OffsetOf(table: seq<seq<string>>, language: nat, key: nat): nat
    requires IsTable(table) && language < |table| && key < |table[0]|
  {
    if language == 0 then EnglishOffset(table[0], key)
    else if table[language][key] == table[0][key] then WithEnglishFlag(EnglishOffset(table[0], key))
    else |Blob(Own(table[language], table[0], key))|
  }

  /** The data lines of a blob; an empty blob is printed as one empty string. */
  function DataLines(strings: seq<string>): seq<string> {
    if strings == [] then EntryLines("") else EntriesLines(strings)
  }

  function EntriesLines(strings: seq<string>): seq<string> {
    if strings == [] then [] else EntryLines(strings[0]) + EntriesLines(strings[1..])
  }

  ghost predicate IsEmitted(e: Emitted, table: seq<seq<string>>, language: nat)
    requires IsTable(table) && language < |table|
  {
    && |e.offsets| == |table[0]|
    && (forall key :: 0 <= key < |table[0]| ==> e.offsets[key] == OffsetOf(table, language, key))
    && e.data == DataLines(BlobStrings(table, language))
  }

  // ---------------------------------------------------------------------------------------
  // The generator.
  // ---------------------------------------------------------------------------------------

  method EnglishOffsets(strings: seq<string>) returns (offsets: seq<nat>, size: nat)
    ensures |offsets| == |strings|
    ensures forall key :: 0 <= key < |strings| ==> offsets[key] == EnglishOffset(strings, key)
    ensures size == |Blob(strings)|
  {
    offsets, size := [], 0;
    for i := 0 to |strings|
      invariant |offsets| == i
      invariant forall key :: 0 <= key < i ==> offsets[key] == EnglishOffset(strings, key)
      invariant size == |Blob(strings[..i])|
    {
      offsets := offsets + [size];
      size := size + |Encode(strings[i])| + 1;
      BlobPush(strings[..i], strings[i]);
      assert strings[..i + 1] == strings[..i] + [strings[i]];
    }
    assert strings[..|strings|] == strings;
  }

  function OtherOffset(strings: seq<string>, english: seq<string>, englishOffsets: seq<nat>, key: nat): nat
    requires key < |strings| == |english| == |englishOffsets|
  {
    if strings[key] == english[key] then WithEnglishFlag(englishOffsets[key]) else |Blob(Own(strings, english, key))|
  }

  method OtherOffsets(strings: seq<string>, english: seq<string>, englishOffsets: seq<nat>)
    returns (offsets: seq<nat>, size: nat, blobStrings: seq<string>)
    requires |strings| == |english| == |englishOffsets|
    ensures |offsets| == |strings| && blobStrings == Own(strings, english, |strings|) && size == |Blob(blobStrings)|
    ensures forall key :: 0 <= key < |strings| ==> offsets[key] == OtherOffset(strings, english, englishOffsets, key)
  {
    hide Encode;
    offsets, size, blobStrings := [], 0, [];
    for i := 0 to |strings|
      invariant |offsets| == i && blobStrings == Own(strings, english, i) && size == |Blob(blobStrings)|
      invariant forall key :: 0 <= key < i ==> offsets[key] == OtherOffset(strings, english, englishOffsets, key)
    {
      hide Blob;
      if strings[i] == english[i] {
        offsets := offsets + [WithEnglishFlag(englishOffsets[i])];
      } else {
        offsets := offsets + [size];
        BlobPush(blobStrings, strings[i]);
        size := size + |Encode(strings[i])| + 1;
        blobStrings := blobStrings + [strings[i]];
      }
    }
  }

  method BlobLines(strings: seq<string>) returns (lines: seq<string>)
    ensures lines == DataLines(strings)
  {
    lines := [];
    assert strings[0..] == strings;
    for i := 0 to |strings|
      invariant lines + EntriesLines(strings[i..]) == EntriesLines(strings)
    {
      assert strings[i..][1..] == strings[i + 1..];
      Regroup(lines, EntryLines(strings[i]), EntriesLines(strings[i + 1..]));
      lines := AppendStringDataEntry(lines, strings[i]);
    }
    if strings == [] {
      lines := AppendStringDataEntry(lines, "");
    }
  }

  /** The tables of all languages, or the first language whose blob is too big. */
  method GenerateStringsCpp(table: seq<seq<string>>) returns (r: Generated)
    requires IsTable(table)
    ensures r.Written? <==> forall l :: 0 <= l < |table| ==> Fits(table, l)
    ensures r.Written? ==> |r.languages| == |table| && forall l :: 0 <= l < |table| ==> IsEmitted(r.languages[l], table, l)
    ensures r.BlobTooBig? ==> r.language < |table| && !Fits(table, r.language) && forall l :: 0 <= l < r.language ==> Fits(table, l)
  {
    hide Blob, Own, DataLines;
    var languages: seq<Emitted> := [];
    var englishOffsets: seq<nat> := [];
    for lang := 0 to |table|
      invariant |languages| == lang
      invariant forall l :: 0 <= l < lang ==> Fits(table, l) && IsEmitted(languages[l], table, l)
      invariant lang > 0 ==> |englishOffsets| == |table[0]| && forall key :: 0 <= key < |table[0]| ==> englishOffsets[key] == EnglishOffset(table[0], key)
    {
      var offsets, size, blobStrings;
      if lang == 0 {
        offsets, size := EnglishOffsets(table[0]);
        blobStrings := table[0];
        if size > MAX_OFFSET {
          assert !Fits(table, lang);
          return BlobTooBig(lang);
        }
        englishOffsets := offsets;
      } else {
        offsets, size, blobStrings := OtherOffsets(table[lang], table[0], englishOffsets);
        assert blobStrings == BlobStrings(table, lang);
        if size > MAX_OFFSET {
          assert !Fits(table, lang);
          return BlobTooBig(lang);
        }
      }
      var data := BlobLines(blobStrings);
      languages := languages + [Emitted(offsets, data)];
    }
    r := Written(languages);
  }

  // ---------------------------------------------------------------------------------------
  // The lookup.
  // ---------------------------------------------------------------------------------------

  /** The bytes of the C string that begins the memory. */
  function CString(memory: seq<byte>): seq<byte> {
    if memory == [] || memory[0] == 0 then [] else [memory[0]] + CString(memory[1..])
  }

  function CStringAt(memory: seq<byte>, offset: nat): Bytes {
    if offset < |memory| then Some(CString(memory[offset..])) else None
  }

  /** I18n::get: bit 15 sends the lookup to the English blob; None is a read past a blob. */
  function Get(offsets: seq<nat>, own: seq<byte>, english: seq<byte>, key: nat): Bytes {
    if key >= |offsets| then Some(Encode("???"))
    else if offsets[key] / ENGLISH_FLAG % 2 == 1 then CStringAt(english, offsets[key] % ENGLISH_FLAG)
    else CStringAt(own, offsets[key])
  }

  lemma {:induction false} CStringStopsAtNul(text: seq<byte>, rest: seq<byte>)
    requires 0 !in text
    ensures CString(text + [0] + rest) == text
  {
    if text != [] {
      CStringStopsAtNul(text[1..], rest);
      assert (text + [0] + rest)[1..] == text[1..] + [0] + rest;
      assert text[0] in text;
    }
  }

  /** A string is found where the strings before it end. */
  lemma StringInBlob(strings: seq<string>, i: nat)
    requires i < |strings| && '\0' !in strings[i]
    ensures |Blob(strings[..i])| < |Blob(strings)|
    ensures CStringAt(Blob(strings), |Blob(strings[..i])|) == Some(Encode(strings[i]))
  {
    hide Encode;
    var before, rest := Blob(strings[..i]), Blob(strings[i + 1..]);
    BlobConcat(strings[..i], strings[i..]);
    assert strings == strings[..i] + strings[i..];
    assert strings[i..][1..] == strings[i + 1..];
    var blob := Blob(strings);
    assert blob == before + (Encode(strings[i]) + [0] + rest);
    assert blob[|before|..] == Encode(strings[i]) + [0] + rest;
    NoNulByte(strings[i]);
    CStringStopsAtNul(Encode(strings[i]), rest);
  }

  lemma {:induction false} OwnIsPrefix(strings: seq<string>, english: seq<string>, i: nat, n: nat)
    requires i <= n <= |strings| && |strings| == |english|
    ensures Own(strings, english, i) <= Own(strings, english, n)
  {
    if i < n {
      OwnIsPrefix(strings, english, i, n - 1);
    }
  }

  lemma OwnPlace(strings: seq<string>, english: seq<string>, key: nat)
    requires key < |strings| && |strings| == |english| && strings[key] != english[key]
    ensures var own, before := Own(strings, english, |strings|), Own(strings, english, key);
      |before| < |own| && own[..|before|] == before && own[|before|] == strings[key]
  {
    OwnIsPrefix(strings, english, key + 1, |strings|);
    assert Own(strings, english, key + 1) == Own(strings, english, key) + [strings[key]];
  }

  lemma OwnString(strings: seq<string>, english: seq<string>, key: nat)
    requires key < |strings| && |strings| == |english| && strings[key] != english[key] && '\0' !in strings[key]
    ensures var own := Own(strings, english, |strings|); var at := |Blob(Own(strings, english, key))|;
      at < |Blob(own)| && CStringAt(Blob(own), at) == Some(Encode(strings[key]))
  {
    var own, before := Own(strings, english, |strings|), Own(strings, english, key);
    OwnPlace(strings, english, key);
    StringInBlob(own, |before|);
  }

  ghost predicate NulFree(table: seq<seq<string>>)
    requires IsTable(table)
  {
    forall l, key :: 0 <= l < |table| && 0 <= key < |table[0]| ==> '\0' !in table[l][key]
  }

  /** The bytes the compiler must find in a language's data. */
  function DataBytes(strings: seq<string>): seq<byte> {
    if strings == [] then [0] else Blob(strings)
  }

  /** Bit 15, set on an offset below it, is taken off again. */
  lemma FlagIsTakenOff(offset: nat)
    requires offset <= MAX_OFFSET
    ensures var flagged := WithEnglishFlag(offset);
      ENGLISH_FLAG <= flagged < 0x10000 && flagged / ENGLISH_FLAG % 2 == 1 && flagged % ENGLISH_FLAG == offset
    ensures offset / ENGLISH_FLAG % 2 == 0
  {
  }

  /** An English string is found in the English blob, by its offset. */
  lemma EnglishFound(english: seq<string>, key: nat)
    requires key < |english| && '\0' !in english[key] && |Blob(english)| <= MAX_OFFSET
    ensures EnglishOffset(english, key) <= MAX_OFFSET
    ensures CStringAt(DataBytes(english), EnglishOffset(english, key)) == Some(Encode(english[key]))
  {
    hide Encode, CStringAt, Blob;
    StringInBlob(english, key);
  }

  /** A string of its own is found in its language's blob. */
  lemma OwnFound(table: seq<seq<string>>, language: nat, key: nat)
    requires IsTable(table) && 0 < language < |table| && key < |table[0]| && Fits(table, language)
    requires table[language][key] != table[0][key] && '\0' !in table[language][key]
    ensures OffsetOf(table, language, key) <= MAX_OFFSET
    ensures CStringAt(DataBytes(BlobStrings(table, language)), OffsetOf(table, language, key)) == Some(Encode(table[language][key]))
  {
    hide Encode, CStringAt, Own, Blob;
    OwnString(table[language], table[0], key);
    EmptyBlob();
    assert BlobStrings(table, language) != [];
  }

  /** For every NUL-free table whose English and own blobs fit: the offset has 16 bits, and the
      lookup finds exactly the translation's UTF-8 bytes, in the English blob when bit 15 is set. */
  lemma LookupFindsTranslation(table: seq<seq<string>>, language: nat, key: nat, e: Emitted)
    requires IsTable(table) && language < |table| && key < |table[0]| && NulFree(table)
    requires Fits(table, 0) && Fits(table, language) && IsEmitted(e, table, language)
    ensures e.offsets[key] < 0x10000
    ensures language == 0 || table[language][key] != table[0][key] ==> e.offsets[key] < ENGLISH_FLAG
    ensures language > 0 && table[language][key] == table[0][key] ==> e.offsets[key] >= ENGLISH_FLAG
    ensures Get(e.offsets, DataBytes(BlobStrings(table, language)), DataBytes(table[0]), key) == Some(Encode(table[language][key]))
  {
    hide Encode, CStringAt, Own, Blob, DataBytes, DataLines, EnglishOffset, WithEnglishFlag;
    EnglishFound(table[0], key);
    if language > 0 && table[language][key] != table[0][key] {
      OwnFound(table, language, key);
      FlagIsTakenOff(OffsetOf(table, language, key));
    } else {
      FlagIsTakenOff(EnglishOffset(table[0], key));
    }
  }

  // ---------------------------------------------------------------------------------------
  // From the translation to the screen.
  // ---------------------------------------------------------------------------------------

  /** The text's lines lose nothing: harmless backslashes, and no cut inside an escape. */
  predicate Printable(text: string) {
    Harmless(text) && AllWrapSafe(WithNul(Escape(text)))
  }

  lemma {:induction false} EntriesRoundTrip(strings: seq<string>)
    requires forall i :: 0 <= i < |strings| ==> Printable(strings[i])
    ensures DecodeAll(EntriesLines(strings)) == Some(Blob(strings))
  {
    if strings != [] {
      HarmlessEntryRoundTrips(strings[0]);
      EntriesRoundTrip(strings[1..]);
      hide Encode, EntryLines, Harmless, AllWrapSafe, Escape;
      DecodeAllConcat(EntryLines(strings[0]), EntriesLines(strings[1..]));
    }
  }

  lemma DataRoundTrips(strings: seq<string>)
    requires forall i :: 0 <= i < |strings| ==> Printable(strings[i])
    ensures DecodeAll(DataLines(strings)) == Some(DataBytes(strings))
  {
    EntriesRoundTrip(strings);
    HarmlessEntryRoundTrips("");
    assert Encode("") + [0] == [0];
  }

  lemma {:induction false} OwnAreTranslations(strings: seq<string>, english: seq<string>, n: nat)
    requires n <= |strings| && |strings| == |english|
    requires forall i :: 0 <= i < |strings| ==> Printable(strings[i])
    ensures forall i :: 0 <= i < |Own(strings, english, n)| ==> Printable(Own(strings, english, n)[i])
  {
    hide Printable;
    if n > 0 {
      OwnAreTranslations(strings, english, n - 1);
    }
  }

  ghost predicate AllPrintable(table: seq<seq<string>>)
    requires IsTable(table)
  {
    forall l, key :: 0 <= l < |table| && 0 <= key < |table[0]| ==> Printable(table[l][key])
  }

  lemma LanguageRoundTrips(table: seq<seq<string>>, language: nat, e: Emitted)
    requires IsTable(table) && language < |table| && AllPrintable(table) && IsEmitted(e, table, language)
    ensures DecodeAll(e.data) == Some(DataBytes(BlobStrings(table, language)))
  {
    hide Printable, DataLines, DataBytes;
    if language > 0 {
      OwnAreTranslations(table[language], table[0], |table[0]|);
    }
    DataRoundTrips(BlobStrings(table, language));
  }

  /** Every language was printed as generated, and its blob fits. */
  ghost predicate IsWritten(table: seq<seq<string>>, r: Generated)
    requires IsTable(table)
  {
    && r.Written? && |r.languages| == |table|
    && forall l :: 0 <= l < |table| ==> Fits(table, l) && IsEmitted(r.languages[l], table, l)
  }

  /** Compiling the printed literals and looking the key up gives exactly the translation. */
  predicate Shows(table: seq<seq<string>>, languages: seq<Emitted>, language: nat, key: nat)
    requires IsTable(table) && |languages| == |table| && language < |table| && key < |table[0]|
  {
    var own, english := DecodeAll(languages[language].data), DecodeAll(languages[0].data);
    own.Some? && english.Some? && Get(languages[language].offsets, own.value, english.value, key) == Some(Encode(table[language][key]))
  }

  /** For every table of NUL-free, printable translations that is written, the firmware shows every
      key in every language. */
  lemma FirmwareShowsTranslation(table: seq<seq<string>>, r: Generated, language: nat, key: nat)
    requires IsTable(table) && NulFree(table) && AllPrintable(table) && IsWritten(table, r)
    requires language < |table| && key < |table[0]|
    ensures Shows(table, r.languages, language, key)
  {
    hide Encode, Get, DecodeAll, DataBytes, NulFree, AllPrintable, Fits, BlobStrings, IsEmitted;
    LanguageRoundTrips(table, 0, r.languages[0]);
    LanguageRoundTrips(table, language, r.languages[language]);
    EnglishBlobIsEnglish(table);
    LookupFindsTranslation(table, language, key, r.languages[language]);
  }

  lemma EnglishBlobIsEnglish(table: seq<seq<string>>)
    requires IsTable(table)
    ensures BlobStrings(table, 0) == table[0]
  {
  }

  // ---------------------------------------------------------------------------------------
  // Only printable translations are all shown.
  // ---------------------------------------------------------------------------------------

  /** Every string is found at its place in d. */
  predicate Finds(d: seq<byte>, strings: seq<string>) {
    forall i :: 0 <= i < |strings| ==> CStringAt(d, |Blob(strings[..i])|) == Some(Encode(strings[i]))
  }

  lemma {:induction false} CStringEnds(memory: seq<byte>)
    ensures var c := CString(memory); c <= memory && (c == memory || memory[|c|] == 0)
  {
    if memory != [] && memory[0] != 0 {
      CStringEnds(memory[1..]);
      assert memory == [memory[0]] + memory[1..];
    }
  }

  lemma FindsRest(d: seq<byte>, strings: seq<string>)
    requires |strings| > 1 && Finds(d, strings)
    ensures var first := Encode(strings[0]) + [0]; first <= d && Finds(d[|first|..], strings[1..])
  {
    hide Encode, CString;
    var rest, e := strings[1..], Encode(strings[0]);
    assert strings[..0] == [] && Blob([]) == [];
    assert CStringAt(d, 0) == Some(e) && d[0..] == d;
    CStringEnds(d);
    assert strings[..1][1..] == [] && Blob(strings[..1]) == e + [0];
    assert CStringAt(d, |e| + 1) == Some(Encode(strings[1]));
    forall i | 0 <= i < |rest| ensures CStringAt(d[|e| + 1..], |Blob(rest[..i])|) == Some(Encode(rest[i])) {
      var n := |Blob(rest[..i])|;
      assert strings[..i + 1][0] == strings[0] && strings[..i + 1][1..] == rest[..i];
      assert CStringAt(d, |e| + 1 + n) == Some(Encode(rest[i]));
      assert d[|e| + 1..][n..] == d[|e| + 1 + n..];
    }
  }

  /** Finding every string at its place takes every byte of the blob but the last separator. */
  lemma {:induction false} FindingServes(d: seq<byte>, strings: seq<string>)
    requires strings != [] && Finds(d, strings)
    ensures Serves(d, Blob(strings))
  {
    hide Encode, CString, Finds;
    var e := Encode(strings[0]);
    if |strings| == 1 {
      OnlyFound(d, strings);
    } else {
      FindsRest(d, strings);
      var rest := d[|e| + 1..];
      FindingServes(rest, strings[1..]);
      assert d == (e + [0]) + rest;
      var blob := Blob(strings[1..]);
      if !(blob <= rest) {
        assert ((e + [0]) + blob)[..|e| + |blob|] == (e + [0]) + blob[..|blob| - 1];
      }
    }
  }

  lemma OnlyFound(d: seq<byte>, strings: seq<string>)
    requires |strings| == 1 && Finds(d, strings)
    ensures Serves(d, Blob(strings))
  {
    hide Encode, CString;
    assert strings[..0] == [] && strings[1..] == [] && Blob([]) == [];
    assert CStringAt(d, 0) == Some(Encode(strings[0])) && d[0..] == d;
    CStringEnds(d);
    assert Blob(strings) == Encode(strings[0]) + [0];
  }

  /** What the lines of several texts are read as, as tokens of all of them. */
  lemma {:induction false} BlobTokens(texts: seq<string>, d: seq<byte>) returns (ts: seq<Token>)
    requires DecodeAll(EntriesLines(texts)) == Some(d)
    ensures Due(ts) == Blob(texts) && Read(ts) == d && AllReadable(ts) && if texts == [] then ts == [] else EndsText(ts)
    ensures AllExact(ts) ==> forall i :: 0 <= i < |texts| ==> Printable(texts[i])
  {
    hide Encode, EntryLines, Printable, Readable, Exact;
    if texts == [] {
      ts := [];
    } else {
      hide TokensFor, AllReadable, AllExact, EndsText, Due, Read, EntriesLines, DecodeAll, Blob;
      var first, rest := SplitLines(texts, d);
      var mine := EntryTokens(texts[0], first);
      var others := BlobTokens(texts[1..], rest);
      ts := mine + others;
      JoinTokens(texts, mine, others, first, rest);
    }
  }

  lemma SplitLines(texts: seq<string>, d: seq<byte>) returns (first: seq<byte>, rest: seq<byte>)
    requires texts != [] && DecodeAll(EntriesLines(texts)) == Some(d)
    ensures DecodeAll(EntryLines(texts[0])) == Some(first) && DecodeAll(EntriesLines(texts[1..])) == Some(rest) && d == first + rest
  {
    hide EntryLines, DecodeAll;
    DecodeAllConcat(EntryLines(texts[0]), EntriesLines(texts[1..]));
    first, rest := DecodeAll(EntryLines(texts[0])).value, DecodeAll(EntriesLines(texts[1..])).value;
  }

  lemma JoinTokens(texts: seq<string>, mine: seq<Token>, others: seq<Token>, first: seq<byte>, rest: seq<byte>)
    requires texts != [] && DecodeAll(EntryLines(texts[0])) == Some(first) && TokensFor(mine, texts[0], first)
    requires Due(others) == Blob(texts[1..]) && Read(others) == rest && AllReadable(others)
    requires texts[1..] != [] ==> EndsText(others)
    requires texts[1..] == [] ==> others == []
    requires AllExact(others) ==> forall i :: 0 <= i < |texts[1..]| ==> Printable(texts[1..][i])
    ensures var ts := mine + others;
      Due(ts) == Blob(texts) && Read(ts) == first + rest && AllReadable(ts) && EndsText(ts)
    ensures AllExact(mine + others) ==> forall i :: 0 <= i < |texts| ==> Printable(texts[i])
  {
    hide Encode, EntryLines, Printable, Readable, Exact, DecodeAll, Harmless, Due, Read;
    TokensConcat(mine, others);
    if AllExact(mine + others) {
      ExactParts(mine, others);
      ExactIsPrintable(texts[0], mine, first);
      assert forall i :: 0 < i < |texts| ==> texts[i] == texts[1..][i - 1];
    }
  }

  lemma ExactParts(a: seq<Token>, b: seq<Token>)
    requires AllExact(a + b)
    ensures AllExact(a) && AllExact(b)
  {
    hide Exact;
    assert forall i :: 0 <= i < |a| ==> (a + b)[i] == a[i];
    assert forall i :: 0 <= i < |b| ==> (a + b)[|a| + i] == b[i];
  }

  lemma ExactIsPrintable(text: string, ts: seq<Token>, d: seq<byte>)
    requires DecodeAll(EntryLines(text)) == Some(d) && TokensFor(ts, text, d) && AllExact(ts)
    ensures Printable(text)
  {
    hide EntryLines, Encode, Harmless, AllWrapSafe, Exact;
    ExactReadsDue(ts);
    PrintedEntryRoundTrips(text);
  }

  /** A blob in which every string is found was printed from printable texts. */
  lemma FoundArePrintable(strings: seq<string>, d: seq<byte>)
    requires strings != [] && DecodeAll(EntriesLines(strings)) == Some(d) && Finds(d, strings)
    ensures forall i :: 0 <= i < |strings| ==> Printable(strings[i])
  {
    hide Printable, Finds, Serves, AllExact, AllReadable, EndsText;
    FindingServes(d, strings);
    var ts := BlobTokens(strings, d);
    ServingIsExact(ts);
  }

  /** The key of a string in a language's blob. */
  lemma {:induction false} OwnKey(strings: seq<string>, english: seq<string>, n: nat, i: nat) returns (key: nat)
    requires n <= |strings| && |strings| == |english| && i < |Own(strings, english, n)|
    ensures key < n && strings[key] != english[key]
    ensures Own(strings, english, key) == Own(strings, english, n)[..i] && strings[key] == Own(strings, english, n)[i]
  {
    if i < |Own(strings, english, n - 1)| {
      key := OwnKey(strings, english, n - 1, i);
    } else {
      key := n - 1;
    }
  }

  ghost predicate AllShown(table: seq<seq<string>>, languages: seq<Emitted>)
    requires IsTable(table) && |languages| == |table|
  {
    forall l, key :: 0 <= l < |table| && 0 <= key < |table[0]| ==> Shows(table, languages, l, key)
  }

  /** The key whose lookup goes to the i-th string of a language's own blob. */
  lemma OwnOffset(table: seq<seq<string>>, e: Emitted, language: nat, i: nat) returns (key: nat)
    requires IsTable(table) && NulFree(table) && Fits(table, 0) && language < |table| && Fits(table, language)
    requires IsEmitted(e, table, language) && i < |BlobStrings(table, language)|
    ensures var strings := BlobStrings(table, language);
      key < |table[0]| && table[language][key] == strings[i] && e.offsets[key] == |Blob(strings[..i])| < ENGLISH_FLAG
  {
    hide Encode, CStringAt, Blob, Own, NulFree, Fits, DataLines, DataBytes, Get;
    key := i;
    if language > 0 {
      key := OwnKey(table[language], table[0], |table[0]|, i);
    }
    LookupFindsTranslation(table, language, key, e);
  }

  /** Looking up the string's key is finding the string in its own blob. */
  lemma OwnLookup(table: seq<seq<string>>, r: Generated, language: nat, i: nat)
    requires IsTable(table) && NulFree(table) && IsWritten(table, r) && language < |table|
    requires AllShown(table, r.languages) && i < |BlobStrings(table, language)|
    ensures var own, strings := DecodeAll(r.languages[language].data), BlobStrings(table, language);
      own.Some? && CStringAt(own.value, |Blob(strings[..i])|) == Some(Encode(strings[i]))
  {
    hide Encode, CStringAt, Blob, DecodeAll, BlobStrings, NulFree, Fits, DataLines, OffsetOf;
    var key := OwnOffset(table, r.languages[language], language, i);
    assert Shows(table, r.languages, language, key);
  }

  /** All the strings of a language's own blob are printable if all keys are shown. */
  lemma ShownArePrintable(table: seq<seq<string>>, r: Generated, language: nat)
    requires IsTable(table) && NulFree(table) && IsWritten(table, r) && language < |table|
    requires AllShown(table, r.languages)
    ensures forall i :: 0 <= i < |BlobStrings(table, language)| ==> Printable(BlobStrings(table, language)[i])
  {
    hide Encode, CStringAt, Blob, DecodeAll, BlobStrings, Printable, NulFree, Fits, AllShown;
    var strings, own := BlobStrings(table, language), DecodeAll(r.languages[language].data);
    if strings != [] {
      forall i | 0 <= i < |strings| ensures own.Some? && CStringAt(own.value, |Blob(strings[..i])|) == Some(Encode(strings[i])) {
        OwnLookup(table, r, language, i);
      }
      OwnLookup(table, r, language, 0);
      FoundArePrintable(strings, own.value);
    }
  }

  lemma {:induction false} CStringHasNoNul(memory: seq<byte>)
    ensures 0 !in CString(memory)
  {
    if memory != [] && memory[0] != 0 {
      CStringHasNoNul(memory[1..]);
    }
  }

  lemma {:induction false} NulIsAByte(s: string)
    requires '\0' in s
    ensures 0 in Encode(s)
  {
    if s[0] == '\0' {
      assert Encode(s)[0] == 0;
    } else {
      NulIsAByte(s[1..]);
    }
  }

  /** A text with a NUL is never shown whole. */
  lemma ShownHasNoNul(table: seq<seq<string>>, r: Generated, language: nat, key: nat)
    requires IsTable(table) && IsWritten(table, r) && language < |table| && key < |table[0]|
    requires Shows(table, r.languages, language, key)
    ensures '\0' !in table[language][key]
  {
    hide Encode, CString, DecodeAll, Fits, OffsetOf;
    var e := r.languages[language];
    var own, english := DecodeAll(e.data).value, DecodeAll(r.languages[0].data).value;
    var at := e.offsets[key];
    var memory := if at / ENGLISH_FLAG % 2 == 1 then english[at % ENGLISH_FLAG..] else own[at..];
    CStringHasNoNul(memory);
    if '\0' in table[language][key] {
      NulIsAByte(table[language][key]);
    }
  }

  /**
   * Main result: for every table that is written, the firmware shows every key in every language
   * as it was translated exactly when every translation is free of NULs and printable.
   */
  lemma FirmwareShowsExactly(table: seq<seq<string>>, r: Generated)
    requires IsTable(table) && IsWritten(table, r)
    ensures AllShown(table, r.languages) <==> NulFree(table) && AllPrintable(table)
  {
    hide Shows, Printable, Fits, IsEmitted, Own;
    if NulFree(table) && AllPrintable(table) {
      forall l, key | 0 <= l < |table| && 0 <= key < |table[0]| ensures Shows(table, r.languages, l, key) {
        FirmwareShowsTranslation(table, r, l, key);
      }
    }
    if AllShown(table, r.languages) {
      forall l, key | 0 <= l < |table| && 0 <= key < |table[0]| ensures '\0' !in table[l][key] {
        ShownHasNoNul(table, r, l, key);
      }
      forall l, key | 0 <= l < |table| && 0 <= key < |table[0]| ensures Printable(table[l][key]) {
        ShownArePrintable(table, r, 0);
        ShownArePrintable(table, r, l);
        if l > 0 && table[l][key] != table[0][key] {
          OwnPlace(table[l], table[0], key);
          assert BlobStrings(table, l)[|Own(table[l], table[0], key)|] == table[l][key];
        } else {
          assert BlobStrings(table, 0)[key] == table[l][key];
        }
      }
    }
  }
}
