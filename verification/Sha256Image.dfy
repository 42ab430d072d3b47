/** The generic hash with the words and constants of SHA-256. */
module Sha256Image {
  import opened Bytes
  import opened Sha256
  import opened Sha256Core
  import opened Sha256Padding
  import opened Sha256Words

  // Lines 296-302 of Application/UefiAvb/libavb/avb_slot_verify.c, in either build of the rounds.
  method SaltedSha256(salt: array<byte>, image: array<byte>, imageSize: u64, unroll: bool) returns (digest: array<byte>)
    requires salt.Length < WRAP && imageSize % WRAP <= image.Length
    ensures digest[..] == DigestOf(Sha256Ops(), Step(Sha256Ops()), CodePadded(FedTwice(salt[..], image[..imageSize % WRAP])))
    ensures salt.Length + imageSize % WRAP < 0x2000_0000 ==>
              digest[..] == Hash(Sha256Ops(), salt[..] + image[..imageSize % WRAP])
  {
    digest := HashSaltedImage(Sha256Ops(), salt, image, imageSize, unroll);
  }
}
