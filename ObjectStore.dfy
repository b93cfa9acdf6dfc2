/** The loose-object store as all three pipelines see it. Reading a file and
    inflating it with zlib are outside the model: the store maps each object
    hash to the decompressed object, already divided into its header text and
    its payload, and the payload is either UTF-8 text or bytes that are not
    UTF-8. A hash is in the store exactly when the file
    `.git/objects/<hash[:2]>/<hash[2:]>` exists. */
module ObjectStore {
  import opened PyText

  newtype byte = x: int | 0 <= x < 256

  datatype Payload = Utf8(text: string) | NotUtf8

  /** A decompressed loose object `"<type> <length>\0<payload>"`. */
  datatype Object = Object(header: string, payload: Payload)

  type Store = map<string, Object>

  /** Index of the first NUL byte, or |data|. */
  function NulIndex(data: seq<byte>): (n: nat)
    ensures n <= |data|
    ensures n < |data| ==> data[n] == 0
    ensures forall i :: 0 <= i < n ==> data[i] != 0
  {
    if data == [] || data[0] == 0 then 0 else 1 + NulIndex(data[1..])
  }

  /** `header, data = decompressed.split(b"\x00", 1)`: the unpacking fails with
      ValueError when there is no NUL; otherwise the header is everything
      before the first NUL and the payload everything after it, NULs included. */
  function SplitHeader(data: seq<byte>): (r: Result<(seq<byte>, seq<byte>)>)
    ensures r.Ok? <==> 0 in data
    ensures r.Err? ==> r.error == ValueError
    ensures r.Ok? ==> 0 !in r.value.0 && r.value.0 + [0] + r.value.1 == data
  {
    var i := NulIndex(data);
    if i == |data| then Err(ValueError)
    else
      assert data == data[..i] + [0] + data[i + 1..];
      Ok((data[..i], data[i + 1..]))
  }

  /** Splitting a stored object gives back its header and its payload, whatever the payload holds. */
  lemma SplitHeaderOfObject(header: seq<byte>, payload: seq<byte>)
    requires 0 !in header
    ensures SplitHeader(header + [0] + payload) == Ok((header, payload))
  {
    var data := header + [0] + payload;
    var r := SplitHeader(data);
    var i := NulIndex(data);
    assert data[|header|] == 0;
    forall k | 0 <= k < |header| ensures data[k] != 0 {
      assert data[k] == header[k] && header[k] in header;
    }
    assert i == |header|;
    assert data[..i] == header;
    assert data[i + 1..] == payload;
  }

  /** The whole decompressed object decoded as UTF-8, as visualizer.py and
      test.py decode it; None stands for UnicodeDecodeError. The header of a
      loose object is ASCII, so only the payload can fail to decode. */
  function FullText(o: Object): Option<string>
  {
    match o.payload
    case Utf8(text) => Some(o.header + ['\0'] + text)
    case NotUtf8 => None
  }

  /** The directory (first two characters) and file name (the rest) of a hash. */
  function ObjectPath(hash: string): (p: (string, string))
    requires |hash| >= 2
    ensures |p.0| == 2 && p.0 + p.1 == hash
  {
    (hash[..2], hash[2..])
  }

  /** Index of the first empty line, or |lines|. */
  function FirstBlank(lines: seq<string>): (n: nat)
    ensures n <= |lines|
    ensures n < |lines| ==> lines[n] == []
    ensures forall i :: 0 <= i < n ==> lines[i] != []
  {
    if lines == [] || lines[0] == [] then 0 else 1 + FirstBlank(lines[1..])
  }
}
