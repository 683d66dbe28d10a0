# Escritor de Atas — a Dafny model of the minutes template and download name

Escritor de Atas is a Streamlit page that takes an uploaded meeting recording,
has a Whisper speech-recognition pipeline transcribe it in Portuguese, and pours
the transcript into a fixed "ata" (meeting minutes) template, which the user can
download as a text file. Everything deterministic in that flow is string work,
and that is what this project models and proves:

- `generate_structured_minutes`: the minutes document is a fixed header (title,
  date and participants placeholders, the "Pontos Discutidos" heading), the
  transcript verbatim, and a fixed trailer (decisions and actions placeholders).
- The transcript handed to it is `result.get("text", "")`: a recognition result
  without a text entry gives the bare template.
- The download name is `"ata_" + os.path.splitext(name)[0] + ".txt"`.
  `os.path.splitext` is modelled as CPython defines it: the extension starts
  at the last dot, provided that dot lies after the last directory separator and
  some character between that separator and the dot is not a dot. Leading dots
  never start an extension. Below, "base name" means the text after the last
  separator, the part `splitext` searches; `splitext` strips no drive or UNC
  prefix. The separators depend on the platform: `/` for posixpath,
  `\` and `/` for ntpath. The model therefore takes a `PathFlavour` parameter.

Files:

- `wrappers.dfy`: module `Wrappers`, the `Option` datatype.
- `path_split.dfy`: module `PathSplit`, `os.path.splitext` and the position
  just after the last separator, where `splitext` starts looking for a non-dot. It also gives an independent description of
  "the extension dot" (`IsExtensionAt`, `HasExtension`) and proves that
  `SplitExt` cuts exactly there.
- `escritor_atas.dfy`: module `EscritorAtas`, the template, its inverse
  `ExtractTranscript`, the result fallback and the download name.

Every member is a pure function or lemma. The source code here is itself a
single f-string and a single expression, with no loops and no mutable state.
Determinism holds by construction: a Dafny function gives equal results on
equal arguments, so calling `GenerateStructuredMinutes` twice on one transcript
gives identical minutes.

## Model

| member | source | states |
|---|---|---|
| EscritorAtas.GenerateStructuredMinutes | Escritor_Atas.py:24-39 | The minutes start with the fixed header and end with the fixed trailer. The transcript sits verbatim between them. The length is exactly header + transcript + trailer. |
| EscritorAtas.MinutesRoundTrip | Escritor_Atas.py:30-39 | Removing the fixed header and trailer from the minutes gives back the transcript. |
| EscritorAtas.ExtractedTranscriptRebuilds | Escritor_Atas.py:30-39 | Conversely, any document from which a transcript can be extracted is exactly the minutes of that transcript. |
| EscritorAtas.MinutesInjective | Escritor_Atas.py:30-39 | Distinct transcripts give distinct minutes documents. |
| EscritorAtas.MinutesOfResult | Escritor_Atas.py:85 | The minutes built from a recognition result carry exactly that result's text when it has a text entry, and the empty transcript when it has none. |
| EscritorAtas.TextPresentGivesItsMinutes | Escritor_Atas.py:85 | A result with a text entry gives the minutes of exactly that text. |
| EscritorAtas.MissingTextGivesEmptyTemplate | Escritor_Atas.py:85 | A result without a text entry gives header directly followed by trailer. |
| EscritorAtas.DownloadFileName | Escritor_Atas.py:88 | The download name starts with "ata_" and ends with ".txt". Its middle is exactly the stem of the upload name. |
| EscritorAtas.DownloadNameCharacterised | Escritor_Atas.py:88 | The middle of the download name is the whole upload name when that has no extension. Otherwise it is the upload name cut at its one extension dot. |
| EscritorAtas.DownloadNameOfPlainName | Escritor_Atas.py:88 | On every platform, a plain file name (no directory part, not starting with a dot) plus an extension without dots or separators gives "ata_" + that name + ".txt". |
| EscritorAtas.DownloadNameOfRecording | Escritor_Atas.py:88 | On every platform, "reuniao.mp3" gives "ata_reuniao.txt". |
| EscritorAtas.DownloadNameKeepsInnerDots | Escritor_Atas.py:88 | On every platform, "a.b.wav" gives "ata_a.b.txt": only the final extension goes. |
| EscritorAtas.DownloadNameOfDotFile | Escritor_Atas.py:88 | On every platform, ".ogg" gives "ata_.ogg.txt": a leading dot does not start an extension. |
| PathSplit.Separators | Escritor_Atas.py:88 | The separators `os.path.splitext` looks for: `/` on posixpath, `\` and `/` on ntpath. `/` is always one of them and the dot never is. |
| PathSplit.LastIndexBefore | Escritor_Atas.py:88 | The last index below n holding a character of the given set, or -1. Nothing of the set lies after it. |
| PathSplit.LastIndexIn | Escritor_Atas.py:88 | `rfind` over the separators or the dot: the last matching index, or -1. No match lies after it. |
| PathSplit.BaseStart | Escritor_Atas.py:88 | The position right after the last separator (0 when there is none), where `splitext` starts looking for a non-dot. No separator lies from there on. |
| PathSplit.BaseStartOfPlainName | Escritor_Atas.py:88 | In a name without slash or backslash that search starts at the first character, on every platform. |
| PathSplit.SplitExt | Escritor_Atas.py:88 | `os.path.splitext`: root and extension concatenate back to the path. |
| PathSplit.Stem | Escritor_Atas.py:88 | `os.path.splitext(name)[0]` is a prefix of the name. |
| PathSplit.SplitExtCharacterised | Escritor_Atas.py:88 | The extension is empty exactly when the path has no extension dot. When it is not empty it starts at that dot: the last dot, after the last separator, with a non-dot of the base name before it. |
| PathSplit.ExtensionUnique | Escritor_Atas.py:88 | A path has at most one extension dot. |
| PathSplit.SplitAtExtension | Escritor_Atas.py:88 | A path with an extension dot at i splits into its first i characters and the rest. |
| PathSplit.HasExtensionInBaseName | Escritor_Atas.py:88 | A path has an extension exactly when some dot of its base name follows a non-dot character of the base name. |
| PathSplit.NoDotKeepsName | Escritor_Atas.py:88 | A base name without a dot keeps its whole text as the stem: the leading-dots rule with no leading dots. |
| PathSplit.LeadingDotsKeepName | Escritor_Atas.py:88 | A base name of leading dots followed by dot-free text keeps its whole text as the stem. |
| PathSplit.OnlyFinalExtensionRemoved | Escritor_Atas.py:88 | Appending ".ext" to a root whose base name holds a non-dot character gives a path whose stem is that root and whose extension is ".ext". |

## Left out

- `load_model` (Escritor_Atas.py:8-22): GPU/CPU selection, the float16/float32 choice and building the `transformers` pipeline are foreign library calls and floating-point configuration.
- The speech-recognition call (Escritor_Atas.py:69-75): the Whisper model is a black box. Its result enters the model only as the parameter `result` of `MinutesOfResult`, a map from keys to strings. The "chunks" entry that `return_timestamps` adds is not a string and is not represented.
- The Streamlit interface of `main` (page setup, uploader, spinner, error messages, `st.write`, download button; Escritor_Atas.py:42-50, 67, 77, 80-94) is UI. This includes line 82, which shows the transcript with a different fallback ("Transcrição não disponível.").
- Saving the upload under `audios/` (Escritor_Atas.py:54-57) is file-system I/O.
- The branches that turn exceptions into error messages (Escritor_Atas.py:60-64, 76-78) only route foreign exceptions to the UI.
- Chunked transcription, segmenting, resampling and per-segment failure handling do not exist in Escritor_Atas.py, so there is nothing of them to model.
- The platform the page runs on is not known, so `os.path` is not fixed to one flavour: both posixpath and ntpath separators are modelled as a parameter. Byte-string paths and `os.fspath` conversion are not modelled; an uploaded file name is always a `str`.
