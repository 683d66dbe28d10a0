/** The deterministic part of the meeting-minutes writer: the fixed template the
    transcript is poured into, the fallback used when the recognition result has
    no text, and the name offered for downloading the minutes. */
module EscritorAtas {
  import opened Wrappers
  import PathSplit

  /** Everything of the minutes before the transcript: title, date and
      participants placeholders, and the heading of the discussed points. */
  const MinutesHeader: string :=
    "**Ata de Reunião**\n\n"
    + "**Data:** [INSERIR DATA]\n\n"
    + "**Participantes:**\n- [LISTAR PARTICIPANTES]\n\n"
    + "**Pontos Discutidos:**\n"

  /** Everything of the minutes after the transcript: the decisions and the
      future actions placeholders. */
  const MinutesTrailer: string :=
    "\n\n"
    + "**Decisões Tomadas:**\n- [LISTAR DECISÕES]\n\n"
    + "**Ações Futuras:**\n- [LISTAR AÇÕES]"

  /** The key under which the speech-recognition pipeline returns its text. */
  const TextKey: string := "text"

  /** The download name is "ata_" + stem + ".txt". */
  const DownloadPrefix: string := "ata_"
  const DownloadSuffix: string := ".txt"

  predicate EndsWith(s: string, suffix: string) {
    |suffix| <= |s| && s[|s| - |suffix|..] == suffix
  }

  // ---------------------------------------------------------------------------
  // generate_structured_minutes

  /** The minutes document: the fixed header, the transcript exactly as given
      (no escaping, no trimming), then the fixed trailer. */
  function GenerateStructuredMinutes(text: string): (doc: string)
    ensures |doc| == |MinutesHeader| + |text| + |MinutesTrailer|
    ensures MinutesHeader <= doc
    ensures EndsWith(doc, MinutesTrailer)
    ensures doc[|MinutesHeader|..|MinutesHeader| + |text|] == text
  {
    MinutesHeader + text + MinutesTrailer
  }

  /** Recovers the transcript from a document of the minutes' shape, and gives
      None for any text that does not have that shape. */
  function ExtractTranscript(doc: string): (r: Option<string>)
    ensures r.Some? ==> |r.value| == |doc| - |MinutesHeader| - |MinutesTrailer|
    ensures r.Some? <==> |MinutesHeader| + |MinutesTrailer| <= |doc| && MinutesHeader <= doc && EndsWith(doc, MinutesTrailer)
  {
    if |MinutesHeader| + |MinutesTrailer| <= |doc| && MinutesHeader <= doc && EndsWith(doc, MinutesTrailer) then
      Some(doc[|MinutesHeader|..|doc| - |MinutesTrailer|])
    else
      None
  }

  /** Removing the fixed header and trailer from the minutes gives the
      transcript back. */
  lemma {:induction false} MinutesRoundTrip(text: string)
    ensures ExtractTranscript(GenerateStructuredMinutes(text)) == Some(text)
  {
    var doc := GenerateStructuredMinutes(text);
    assert doc[|MinutesHeader|..|doc| - |MinutesTrailer|] == text;
  }

  /** Every document from which a transcript can be extracted is the minutes of
      that transcript. */
  lemma {:induction false} ExtractedTranscriptRebuilds(doc: string)
    requires ExtractTranscript(doc).Some?
    ensures GenerateStructuredMinutes(ExtractTranscript(doc).value) == doc
  {
    var h, t := |MinutesHeader|, |MinutesTrailer|;
    var text := doc[h..|doc| - t];
    assert ExtractTranscript(doc).value == text;
    assert doc[..h] == MinutesHeader;
    assert doc[|doc| - t..] == MinutesTrailer;
    assert doc == doc[..h] + text + doc[|doc| - t..];
  }

  /** Distinct transcripts give distinct minutes. */
  lemma {:induction false} MinutesInjective(a: string, b: string)
    requires GenerateStructuredMinutes(a) == GenerateStructuredMinutes(b)
    ensures a == b
  {
    MinutesRoundTrip(a);
    MinutesRoundTrip(b);
  }

  // ---------------------------------------------------------------------------
  // The minutes built from the recognition result, result.get("text", "")

  /** The minutes of one recognition result: built from the recognised text, or
      from the empty string when the result has no text entry. */
  function MinutesOfResult(result: map<string, string>): (doc: string)
    ensures TextKey in result ==> ExtractTranscript(doc) == Some(result[TextKey])
    ensures TextKey !in result ==> ExtractTranscript(doc) == Some("")
  {
    var text := if TextKey in result then result[TextKey] else "";
    MinutesRoundTrip(text);
    GenerateStructuredMinutes(text)
  }

  /** A result with text gives the minutes of exactly that text. */
  lemma {:induction false} TextPresentGivesItsMinutes(result: map<string, string>)
    requires TextKey in result
    ensures MinutesOfResult(result) == GenerateStructuredMinutes(result[TextKey])
  {
  }

  /** A result without text still gives minutes: the bare template, header
      directly followed by trailer. */
  lemma {:induction false} MissingTextGivesEmptyTemplate(result: map<string, string>)
    requires TextKey !in result
    ensures MinutesOfResult(result) == MinutesHeader + MinutesTrailer
  {
  }

  // ---------------------------------------------------------------------------
  // The download name, f"ata_{os.path.splitext(name)[0]}.txt"

  /** The name the minutes are offered under for a given uploaded file name. */
  function DownloadFileName(name: string, f: PathSplit.PathFlavour): (r: string)
    ensures DownloadPrefix <= r
    ensures EndsWith(r, DownloadSuffix)
    ensures |r| == |DownloadPrefix| + |PathSplit.Stem(name, f)| + |DownloadSuffix|
    ensures r[|DownloadPrefix|..|r| - |DownloadSuffix|] == PathSplit.Stem(name, f)
  {
    DownloadPrefix + PathSplit.Stem(name, f) + DownloadSuffix
  }

  /** The middle of the download name is the upload name, less its extension
      when it has one and whole when it has none. */
  lemma {:induction false} DownloadNameCharacterised(name: string, f: PathSplit.PathFlavour)
    ensures var r := DownloadFileName(name, f);
      var middle := r[|DownloadPrefix|..|r| - |DownloadSuffix|];
      && (!PathSplit.HasExtension(name, f) ==> middle == name)
      && (PathSplit.HasExtension(name, f) ==>
            middle + PathSplit.SplitExt(name, f).1 == name
            && PathSplit.IsExtensionAt(name, |middle|, f))
  {
    PathSplit.SplitExtCharacterised(name, f);
  }

  /** A plain file name (no directory part, not starting with a dot) with one
      more extension appended: the download name keeps the name and drops that
      extension, on every platform. */
  lemma DownloadNameOfPlainName(root: string, ext: string, f: PathSplit.PathFlavour)
    requires root != [] && root[0] != PathSplit.ExtSep
    requires forall k :: 0 <= k < |root| ==> root[k] != '/' && root[k] != '\\'
    requires forall k :: 0 <= k < |ext| ==> ext[k] != PathSplit.ExtSep && ext[k] != '/' && ext[k] != '\\'
    ensures DownloadFileName(root + [PathSplit.ExtSep] + ext, f) == DownloadPrefix + root + DownloadSuffix
  {
    PathSplit.BaseStartOfPlainName(root, f);
    PathSplit.OnlyFinalExtensionRemoved(root, ext, f);
  }

  /** A recording named as the upload form expects: its extension goes. */
  lemma DownloadNameOfRecording(f: PathSplit.PathFlavour)
    ensures DownloadFileName("reuniao.mp3", f) == "ata_reuniao.txt"
  {
    assert "reuniao.mp3" == "reuniao" + [PathSplit.ExtSep] + "mp3";
    DownloadNameOfPlainName("reuniao", "mp3", f);
  }

  /** Only the final extension goes. */
  lemma DownloadNameKeepsInnerDots(f: PathSplit.PathFlavour)
    ensures DownloadFileName("a.b.wav", f) == "ata_a.b.txt"
  {
    assert "a.b.wav" == "a.b" + [PathSplit.ExtSep] + "wav";
    DownloadNameOfPlainName("a.b", "wav", f);
  }

  /** A leading dot does not start an extension. */
  lemma DownloadNameOfDotFile(f: PathSplit.PathFlavour)
    ensures DownloadFileName(".ogg", f) == "ata_.ogg.txt"
  {
    PathSplit.LeadingDotsKeepName(".ogg", f, 1);
  }
}
