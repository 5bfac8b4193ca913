/** AES-256 under one key is a block cipher as the modes need it. */
module AesPair {
  import opened ByteIndex
  import opened Fips197
  import opened Aes
  import opened AesContext
  import Sp800_38A

  /** What a context set up for encryption and one set up for decryption compute. */
  ghost function Pair(key: seq<byte>): Sp800_38A.BlockCipher
    requires |key| == 32
  {
    var keys := KeyExpansion(KeyOf(key));
    Sp800_38A.BlockCipher(
      (b: seq<byte>) => if |b| == 16 then OutBytes(Cipher(keys, InState(b))) else b,
      (b: seq<byte>) => if |b| == 16 then OutBytes(EqInvCipher(DecryptionKeys(keys), InState(b))) else b)
  }

  lemma PairIsProper(key: seq<byte>)
    requires |key| == 32
    ensures Sp800_38A.Proper(Pair(key))
  {
    hide Cipher, EqInvCipher, DecryptionKeys, KeyExpansion, InState, OutBytes;
    var c := Pair(key);
    forall b | Sp800_38A.IsBlock(b)
      ensures Sp800_38A.IsBlock(c.E(b)) && Sp800_38A.IsBlock(c.D(b)) && c.D(c.E(b)) == b
    {
      DecryptUndoesEncrypt(key, b);
    }
  }
}
