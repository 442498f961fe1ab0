/**
  `FileSystemHelper._UrlListMimeData` of pyqode: the clipboard payload for
  copied or cut files, a newline-separated list of URLs stored under a MIME
  format that says whether the files were copied or cut.  The locale byte
  encoding on the way in and UTF-8 on the way out are taken as the
  identity, so the payload is a string.
 */
module UrlListMime {
  import opened Strings

  const CopyFormat: string := "text/tv-copy-url-list"
  const CutFormat: string := "text/tv-cut-url-list"

  /** A MIME data object: the copy flag it was made with and its payloads
      by format name. */
  datatype MimeData = MimeData(copy: bool, data: map<string, string>)

  /** `format(copy)`: the format name for copied or for cut files. */
  function Format(copy: bool): (r: string)
    ensures r == CopyFormat || r == CutFormat
    ensures r == CopyFormat <==> copy
  {
    if copy then CopyFormat else CutFormat
  }

  /** The two format names differ, so a cut payload is never read as a
      copied one. */
  lemma FormatInjective(a: bool, b: bool)
    ensures Format(a) == Format(b) <==> a == b
  {
    assert |CopyFormat| != |CutFormat|;
  }

  /** `formats()`: the single format this object offers. */
  function Formats(m: MimeData): (r: seq<string>)
    ensures |r| == 1 && r[0] == Format(m.copy)
  {
    [Format(m.copy)]
  }

  /** `set_list(urls)`: stores the URLs joined by newlines under the
      object's own format; payloads under other formats are kept. */
  function SetList(m: MimeData, urls: seq<string>): (r: MimeData)
    ensures r.copy == m.copy
    ensures r.data.Keys == m.data.Keys + {Format(m.copy)}
    ensures forall f :: f in m.data && f != Format(m.copy) ==> r.data[f] == m.data[f]
  {
    m.(data := m.data[Format(m.copy) := Join(urls, '\n')])
  }

  /** `list_from(mime_data, copy)`: the payload under the requested format
      split at newlines.  A missing payload reads as empty bytes. */
  function ListFrom(m: MimeData, copy: bool): (r: seq<string>)
    ensures |r| >= 1
    ensures forall i :: 0 <= i < |r| ==> '\n' !in r[i]
    ensures Format(copy) !in m.data ==> r == [""]
  {
    Split(if Format(copy) in m.data then m.data[Format(copy)] else "", '\n')
  }

  /** Reading back a stored non-empty list of newline-free URLs under the
      same format yields the list. */
  lemma RoundTrip(m: MimeData, urls: seq<string>)
    requires |urls| >= 1
    requires SeparatorFree(urls, '\n')
    ensures ListFrom(SetList(m, urls), m.copy) == urls
  {
    SplitJoin(urls, '\n');
  }

  /** An empty list does not survive: it reads back as one empty URL. */
  lemma EmptyListReadsBackOneEmptyUrl(m: MimeData)
    ensures ListFrom(SetList(m, []), m.copy) == [""]
  {
  }

  /** Reading the object's own payload back and storing it again leaves the
      payload as it was, whatever it holds. */
  lemma ReadStoreStable(m: MimeData)
    requires Format(m.copy) in m.data
    ensures SetList(m, ListFrom(m, m.copy)) == m
  {
    JoinSplit(m.data[Format(m.copy)], '\n');
  }

  /** A list stored as copied is not seen when reading for a cut, and the
      other way round, unless a payload under that format was already there. */
  lemma OtherFormatUnaffected(m: MimeData, urls: seq<string>)
    ensures ListFrom(SetList(m, urls), !m.copy) == ListFrom(m, !m.copy)
  {
    FormatInjective(m.copy, !m.copy);
  }
}
