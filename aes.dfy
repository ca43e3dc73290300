/** AES in counter mode (encrypt/my-aes.go), the block cipher kept abstract:
    counter mode, section 6.5 of NIST SP 800-38A, XORs the data with a
    keystream determined by the key and the initial counter block, so the
    model takes that keystream as a parameter `ks(key, iv, i)`, the i-th
    keystream byte. */
module Aes {
  import opened Common
  import opened FileSystem

  /** The bytes read and transformed at a time. */
  const DataChunk := 1024
  /** The writer is flushed when the offset is a multiple of this. */
  const FlushEvery := 5 * 1024 * 1024
  /** The AES block size, hence the IV length. */
  const BlockSize := 16

  type Keystream = (Bytes, Bytes, nat) -> byte

  datatype AesError = InvalidKeySize | RandomFailed | OpenFailed | CreateFailed | RemoveFailed

  /** The key lengths `aes.NewCipher` accepts: AES-128, AES-192 and AES-256. */
  predicate ValidKeyLength(key: Bytes)
  {
    |key| == 16 || |key| == 24 || |key| == 32
  }

  /** `AESGenerakeKey`: the first `length` bytes of the random source, or an
      error when it cannot supply them. */
  function AESGenerateKey(length: nat, random: Bytes): (r: Result<Bytes, AesError>)
    ensures r.Ok? <==> |random| >= length
    ensures r.Ok? ==> |r.value| == length && r.value == random[..length]
    ensures r.Err? ==> r.error == RandomFailed
  {
    if |random| < length then Err(RandomFailed) else Ok(random[..length])
  }

  /** `AESGenerateIV`: one block of random bytes. */
  function AESGenerateIV(random: Bytes): (r: Result<Bytes, AesError>)
    ensures r.Ok? <==> |random| >= BlockSize
    ensures r.Ok? ==> |r.value| == BlockSize
  {
    AESGenerateKey(BlockSize, random)
  }

  /** The counter-mode transformation of `data`, keystream from position 0. */
  function Xor(data: Bytes, key: Bytes, iv: Bytes, ks: Keystream): (r: Bytes)
    ensures |r| == |data|
  {
    seq(|data|, i requires 0 <= i < |data| => data[i] ^ ks(key, iv, i))
  }

  /** `EncryptDecryptChunk`: fails on a key of the wrong size; otherwise the
      counter-mode transformation. The IV must be one block long, as
      `cipher.NewCTR` demands. */
  function EncryptDecryptChunk(data: Bytes, key: Bytes, iv: Bytes, ks: Keystream): (r: Result<Bytes, AesError>)
    requires |iv| == BlockSize
    ensures r.Ok? <==> ValidKeyLength(key)
    ensures r.Err? ==> r.error == InvalidKeySize
    ensures r.Ok? ==> |r.value| == |data|
  {
    if !ValidKeyLength(key) then Err(InvalidKeySize) else Ok(Xor(data, key, iv, ks))
  }

  /** Encrypting and decrypting are the same transformation: applied twice it
      gives the data back, for every length including 0. */
  lemma EncryptDecryptInvolution(data: Bytes, key: Bytes, iv: Bytes, ks: Keystream)
    requires |iv| == BlockSize && ValidKeyLength(key)
    ensures EncryptDecryptChunk(EncryptDecryptChunk(data, key, iv, ks).value, key, iv, ks) == Ok(data)
  {
    var once := Xor(data, key, iv, ks);
    var twice := Xor(once, key, iv, ks);
    forall i | 0 <= i < |data| ensures twice[i] == data[i] {
      XorTwice(data[i], ks(key, iv, i));
    }
    assert twice == data;
  }

  lemma XorTwice(a: byte, k: byte)
    ensures (a ^ k) ^ k == a
  {
  }

  /** The file transformed chunk by chunk, the keystream restarting at the IV
      for every chunk of `DataChunk` bytes (the last one shorter). */
  function Chunked(data: Bytes, key: Bytes, iv: Bytes, ks: Keystream): (r: Bytes)
    ensures |r| == |data|
    decreases |data|
  {
    if |data| <= DataChunk then Xor(data, key, iv, ks)
    else Xor(data[..DataChunk], key, iv, ks) + Chunked(data[DataChunk..], key, iv, ks)
  }

  /** Chunked transformation is its own inverse, when the same chunk
      boundaries are used both ways. */
  lemma {:induction false} ChunkedInvolution(data: Bytes, key: Bytes, iv: Bytes, ks: Keystream)
    ensures Chunked(Chunked(data, key, iv, ks), key, iv, ks) == data
    decreases |data|
  {
    var once := Chunked(data, key, iv, ks);
    if |data| <= DataChunk {
      forall i | 0 <= i < |data| ensures Xor(once, key, iv, ks)[i] == data[i] {
        XorTwice(data[i], ks(key, iv, i));
      }
    } else {
      var head := Xor(data[..DataChunk], key, iv, ks);
      assert once[..DataChunk] == head;
      assert once[DataChunk..] == Chunked(data[DataChunk..], key, iv, ks);
      ChunkedInvolution(data[DataChunk..], key, iv, ks);
      forall i | 0 <= i < DataChunk ensures Xor(head, key, iv, ks)[i] == data[i] {
        XorTwice(data[i], ks(key, iv, i));
      }
      assert data == data[..DataChunk] + data[DataChunk..];
    }
  }

  /** Byte `i` of the chunked output uses keystream position `i mod 1024`:
      every chunk restarts the counter at the IV. */
  lemma {:induction false} ChunkedByte(data: Bytes, key: Bytes, iv: Bytes, ks: Keystream, i: nat)
    requires i < |data|
    ensures Chunked(data, key, iv, ks)[i] == data[i] ^ ks(key, iv, i % DataChunk)
    decreases |data|
  {
    if |data| > DataChunk && i >= DataChunk {
      ChunkedByte(data[DataChunk..], key, iv, ks, i - DataChunk);
    }
  }

  /** The offsets at which the chunk loop flushes: the start of every chunk
      that lies on a multiple of `FlushEvery`. */
  function FlushOffsets(n: nat, offset: nat): seq<nat>
    decreases n - offset
  {
    if offset >= n then []
    else (if offset % FlushEvery == 0 then [offset] else []) + FlushOffsets(n, offset + DataChunk)
  }

  /** The loop flushes exactly at the multiples of 5 MiB below the file length,
      the first chunk included. */
  lemma {:induction false} FlushOffsetsAre(n: nat, offset: nat, x: nat)
    requires offset % DataChunk == 0
    ensures x in FlushOffsets(n, offset) <==> offset <= x < n && x % FlushEvery == 0
    decreases n - offset
  {
    if offset < n {
      FlushOffsetsAre(n, offset + DataChunk, x);
      if offset < x && x % FlushEvery == 0 {
        FlushPointsAreChunkStarts(x);
        NextChunkStart(offset, x);
      }
    }
  }

  /** A flush point is the start of a chunk. */
  lemma FlushPointsAreChunkStarts(x: nat)
    requires x % FlushEvery == 0
    ensures x % DataChunk == 0
  {
    var k := x / FlushEvery;
    assert x == DataChunk * (5120 * k);
  }

  /** Chunk starts lie a whole chunk apart. */
  lemma NextChunkStart(a: nat, b: nat)
    requires a % DataChunk == 0 && b % DataChunk == 0 && a < b
    ensures a + DataChunk <= b
  {
    assert a == DataChunk * (a / DataChunk);
    assert b == DataChunk * (b / DataChunk);
  }

  /** One turn of the chunk loop: the next chunk is `n` bytes long. */
  lemma ChunkStep(content: Bytes, offset: nat, n: nat, key: Bytes, iv: Bytes, ks: Keystream)
    requires offset < |content|
    requires n == if |content| - offset < DataChunk then |content| - offset else DataChunk
    ensures Chunked(content[offset..], key, iv, ks) ==
      Xor(content[offset..offset + n], key, iv, ks) + Chunked(content[offset + n..], key, iv, ks)
    ensures FlushOffsets(|content|, offset) ==
      (if offset % FlushEvery == 0 then [offset] else []) + FlushOffsets(|content|, offset + n)
    ensures offset % DataChunk == 0 ==> (offset + n) % DataChunk == 0 || offset + n == |content|
  {
    var rest := content[offset..];
    assert rest[..n] == content[offset..offset + n];
    assert rest[n..] == content[offset + n..];
    if n < DataChunk {
      assert rest[..n] == rest;
      assert content[offset + n..] == [];
    }
  }

  lemma AppendAssoc<T>(a: seq<T>, b: seq<T>, c: seq<T>)
    ensures (a + b) + c == a + (b + c)
  {
  }

  /** The read/encrypt/write loop of `EncryptZipFileAndStore`: the chunks
      transformed one after another, and the offsets at which it flushes. A
      bad key fails at the first chunk. */
  method EncryptChunks(content: Bytes, key: Bytes, iv: Bytes, ks: Keystream)
    returns (r: Result<Bytes, AesError>, flushedAt: seq<nat>)
    requires |iv| == BlockSize
    ensures r.Err? <==> !ValidKeyLength(key) && |content| > 0
    ensures r.Err? ==> r.error == InvalidKeySize
    ensures r.Ok? ==> r.value == Chunked(content, key, iv, ks) && flushedAt == FlushOffsets(|content|, 0)
  {
    flushedAt := [];
    var written: Bytes := [];
    var offset := 0;
    while offset < |content|
      invariant 0 <= offset <= |content| && (offset % DataChunk == 0 || offset == |content|)
      invariant offset > 0 ==> ValidKeyLength(key)
      invariant written + Chunked(content[offset..], key, iv, ks) == Chunked(content, key, iv, ks)
      invariant flushedAt + FlushOffsets(|content|, offset) == FlushOffsets(|content|, 0)
      decreases |content| - offset
    {
      var n := if |content| - offset < DataChunk then |content| - offset else DataChunk;
      var chunk := content[offset..offset + n];
      var encrypted := EncryptDecryptChunk(chunk, key, iv, ks);
      if encrypted.Err? {
        return Err(encrypted.error), flushedAt;
      }
      ChunkStep(content, offset, n, key, iv, ks);
      assert encrypted.value == Xor(chunk, key, iv, ks);
      var flushed := if offset % FlushEvery == 0 then [offset] else [];
      AppendAssoc(written, encrypted.value, Chunked(content[offset + n..], key, iv, ks));
      AppendAssoc(flushedAt, flushed, FlushOffsets(|content|, offset + n));
      written := written + encrypted.value;
      flushedAt := flushedAt + flushed;
      offset := offset + n;
    }
    assert content[offset..] == [];
    return Ok(written), flushedAt;
  }

  /** `EncryptZipFileAndStore`: opens the zip, creates the encrypted file,
      transforms the zip in chunks and writes them through a buffered writer,
      then removes the zip. The zip is removed only once everything has been
      written; a failure before leaves it where it was. */
  method EncryptZipFileAndStore(disk: Disk, zipPath: Path, encPath: Path, key: Bytes, iv: Bytes, ks: Keystream)
    returns (err: Option<AesError>, flushedAt: seq<nat>)
    requires disk.Valid()
    requires |iv| == BlockSize
    requires zipPath != encPath
    modifies disk
    ensures disk.Valid()
    ensures disk.dirs == old(disk.dirs)
    ensures zipPath !in old(disk.files) ==> err == Some(OpenFailed) && disk.files == old(disk.files)
    ensures zipPath in old(disk.files) && !(encPath !in disk.dirs && |encPath| > 0 && Parent(encPath) in disk.dirs) ==>
      err == Some(CreateFailed) && disk.files == old(disk.files)
    ensures err.None? ==>
      && zipPath in old(disk.files)
      && disk.files == (old(disk.files) - {zipPath})[encPath := Chunked(old(disk.files)[zipPath], key, iv, ks)]
      && flushedAt == FlushOffsets(|old(disk.files)[zipPath]|, 0)
    ensures err == Some(InvalidKeySize) ==>
      && !ValidKeyLength(key) && zipPath in old(disk.files) && |old(disk.files)[zipPath]| > 0
      && disk.files == old(disk.files)[encPath := []]
    ensures zipPath in old(disk.files) && zipPath !in disk.files ==> err.None?
    ensures ValidKeyLength(key) ==> (err.None? <==> zipPath in old(disk.files) && Creatable(old(disk.dirs), encPath))
  {
    flushedAt := [];
    if zipPath !in disk.files {
      return Some(OpenFailed), flushedAt;
    }
    var content := disk.files[zipPath];
    var ok := disk.WriteFile(encPath, []);
    if !ok {
      return Some(CreateFailed), flushedAt;
    }
    err, flushedAt := StoreEncrypted(disk, zipPath, encPath, content, key, iv, ks);
  }

  /** The rest of `EncryptZipFileAndStore` once the destination exists:
      encrypt, write the result, remove the zip. */
  method StoreEncrypted(disk: Disk, zipPath: Path, encPath: Path, content: Bytes, key: Bytes, iv: Bytes, ks: Keystream)
    returns (err: Option<AesError>, flushedAt: seq<nat>)
    requires disk.Valid()
    requires |iv| == BlockSize
    requires zipPath != encPath && zipPath in disk.files && encPath in disk.files
    modifies disk
    ensures disk.Valid()
    ensures disk.dirs == old(disk.dirs)
    ensures err.None? ==>
      && disk.files == (old(disk.files) - {zipPath})[encPath := Chunked(content, key, iv, ks)]
      && flushedAt == FlushOffsets(|content|, 0)
    ensures err.Some? ==>
      err == Some(InvalidKeySize) && !ValidKeyLength(key) && |content| > 0 && disk.files == old(disk.files)
  {
    var r;
    r, flushedAt := EncryptChunks(content, key, iv, ks);
    if r.Err? {
      return Some(r.error), flushedAt;
    }
    var ok := disk.WriteFile(encPath, r.value);
    var removed := disk.Remove(zipPath);
    assert disk.files == (old(disk.files) - {zipPath})[encPath := r.value];
    return None, flushedAt;
  }
}
