/**
 * The content hasher of the cleaner (`sha1(file_path)`): a hash object is fed
 * the file in chunks of at most 4096 bytes and then asked for its hex digest.
 * SHA-1 itself (FIPS 180-4) is not modelled: the digest is a function
 * `hexdigest` from the bytes fed to the object to a hex string, supplied by
 * the caller. What is modelled is the streaming: a hash object only
 * remembers the concatenation of what it was fed.
 */
module Hasher {
  type Bytes = seq<bv8>

  /** The size of one `f.read(4096)`. */
  const ChunkSize: nat := 4096

  /** A `hashlib.sha1()` object, seen through the bytes it has absorbed. */
  class HashObject {
    var absorbed: Bytes

    constructor ()
      ensures absorbed == []
    {
      absorbed := [];
    }

    /** `update(chunk)` */
    method Update(chunk: Bytes)
      modifies this
      ensures absorbed == old(absorbed) + chunk
    {
      absorbed := absorbed + chunk;
    }

    /** `hexdigest()` */
    function HexDigest(hexdigest: Bytes -> string): string
      reads this
    {
      hexdigest(absorbed)
    }
  }

  /**
   * `f.read(4096)` on a file whose read position is `pos`: the next at most
   * 4096 bytes, empty exactly at the end of the file.
   */
  function ReadChunk(content: Bytes, pos: nat): (chunk: Bytes)
    requires pos <= |content|
    ensures |chunk| <= ChunkSize
    ensures pos + |chunk| <= |content| && content[pos..pos + |chunk|] == chunk
    ensures chunk == [] <==> pos == |content|
    ensures |chunk| == ChunkSize || pos + |chunk| == |content|
  {
    if |content| - pos <= ChunkSize then content[pos..] else content[pos..pos + ChunkSize]
  }

  /**
   * `sha1(file_path)`: reads the file chunk by chunk until a read comes back
   * empty, feeding every chunk to a fresh hash object. The digest is that of
   * the whole file. The script holds one chunk at a time; the model passes the
   * content whole and abstracts the hash state as the bytes absorbed so far.
   */
  method FileSha1(content: Bytes, hexdigest: Bytes -> string) returns (digest: string)
    ensures digest == hexdigest(content)
  {
    var hash := new HashObject();
    var pos := 0;
    var chunk := ReadChunk(content, pos);
    while chunk != []
      invariant pos <= |content|
      invariant chunk == ReadChunk(content, pos)
      invariant hash.absorbed == content[..pos]
      decreases |content| - pos
    {
      hash.Update(chunk);
      assert content[..pos] + chunk == content[..pos + |chunk|];
      pos := pos + |chunk|;
      chunk := ReadChunk(content, pos);
    }
    assert content[..pos] == content;
    digest := hash.HexDigest(hexdigest);
  }
}
