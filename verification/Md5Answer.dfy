/** MD5 of the message "a", operation by operation: the second line of RFC 1321,
    appendix A.5. */
module Md5Answer {
  import opened Octets
  import opened Md5Words
  import opened Md5

  /** 0cc175b9c0f1b6a831c399e269772661 */
  const ANSWER: Bytes :=
    [0x0c, 0xc1, 0x75, 0xb9, 0xc0, 0xf1, 0xb6, 0xa8, 0x31, 0xc3, 0x99, 0xe2, 0x69, 0x77, 0x26, 0x61]

  /** The words of its one block: "a" and the bit behind it, and eight bits in all. */
  const WORDS: seq<Word> := [0x00008061, 0, 0, 0, 0, 0, 0, 0, 0, 0, 0, 0, 0, 0, 8, 0]

  /** The entries of the table. */
  lemma Entries1()
    ensures
      && T(0) == 0xd76aa478 && T(1) == 0xe8c7b756 && T(2) == 0x242070db && T(3) == 0xc1bdceee
      && T(4) == 0xf57c0faf && T(5) == 0x4787c62a && T(6) == 0xa8304613 && T(7) == 0xfd469501
  {
  }

  lemma Entries2()
    ensures
      && T(8) == 0x698098d8 && T(9) == 0x8b44f7af && T(10) == 0xffff5bb1 && T(11) == 0x895cd7be
      && T(12) == 0x6b901122 && T(13) == 0xfd987193 && T(14) == 0xa679438e && T(15) == 0x49b40821
  {
  }

  /** The shifts, and which words of the block are used. */
  lemma Choices1()
    ensures
      && Shift(0) == 7 && Index(0) == 0 && Shift(1) == 12 && Index(1) == 1
      && Shift(2) == 17 && Index(2) == 2 && Shift(3) == 22 && Index(3) == 3
      && Shift(4) == 7 && Index(4) == 4 && Shift(5) == 12 && Index(5) == 5
      && Shift(6) == 17 && Index(6) == 6 && Shift(7) == 22 && Index(7) == 7
      && Shift(8) == 7 && Index(8) == 8 && Shift(9) == 12 && Index(9) == 9
      && Shift(10) == 17 && Index(10) == 10 && Shift(11) == 22 && Index(11) == 11
      && Shift(12) == 7 && Index(12) == 12 && Shift(13) == 12 && Index(13) == 13
      && Shift(14) == 17 && Index(14) == 14 && Shift(15) == 22 && Index(15) == 15
  {
  }

  /** Operation by operation: the round function, the sum, the sum rotated and the new word. */
  lemma Values1()
    ensures
      && RoundFunction(0, 0xefcdab89, 0x98badcfe, 0x10325476) == 0x98badcfe
      && Sum(0x67452301, 0x98badcfe, 0x00008061, 0xd76aa478) == 0xd76b24d8
      && Rotate(0xd76b24d8, 7) == 0xb5926c6b && Plus(0xefcdab89, 0xb5926c6b) == 0xa56017f4
      && RoundFunction(1, 0xa56017f4, 0xefcdab89, 0x98badcfe) == 0xbddacb8a
      && Sum(0x10325476, 0xbddacb8a, 0x00000000, 0xe8c7b756) == 0xb6d4d756
      && Rotate(0xb6d4d756, 12) == 0x4d756b6d && Plus(0xa56017f4, 0x4d756b6d) == 0xf2d58361
      && RoundFunction(2, 0xf2d58361, 0xa56017f4, 0xefcdab89) == 0xad482be8
      && Sum(0x98badcfe, 0xad482be8, 0x00000000, 0x242070db) == 0x6a2379c1
      && Rotate(0x6a2379c1, 17) == 0xf382d446 && Plus(0xf2d58361, 0xf382d446) == 0xe65857a7
      && RoundFunction(3, 0xe65857a7, 0xf2d58361, 0xa56017f4) == 0xe3700371
      && Sum(0xefcdab89, 0xe3700371, 0x00000000, 0xc1bdceee) == 0x94fb7de8
      && Rotate(0x94fb7de8, 22) == 0x7a253edf && Plus(0xe65857a7, 0x7a253edf) == 0x607d9686
      && RoundFunction(4, 0x607d9686, 0xe65857a7, 0xf2d58361) == 0xf2d817e7
      && Sum(0xa56017f4, 0xf2d817e7, 0x00000000, 0xf57c0faf) == 0x8db43f8a
      && Rotate(0x8db43f8a, 7) == 0xda1fc546 && Plus(0x607d9686, 0xda1fc546) == 0x3a9d5bcc
      && RoundFunction(5, 0x3a9d5bcc, 0x607d9686, 0xe65857a7) == 0xe45d16a7
      && Sum(0xf2d58361, 0xe45d16a7, 0x00000000, 0x4787c62a) == 0x1eba6032
      && Rotate(0x1eba6032, 12) == 0xa60321eb && Plus(0x3a9d5bcc, 0xa60321eb) == 0xe0a07db7
      && RoundFunction(6, 0xe0a07db7, 0x3a9d5bcc, 0x607d9686) == 0x20dddb84
      && Sum(0xe65857a7, 0x20dddb84, 0x00000000, 0xa8304613) == 0xaf66793e
      && Rotate(0xaf66793e, 17) == 0xf27d5ecc && Plus(0xe0a07db7, 0xf27d5ecc) == 0xd31ddc83
      && RoundFunction(7, 0xd31ddc83, 0xe0a07db7, 0x3a9d5bcc) == 0xe8805fcf
      && Sum(0x607d9686, 0xe8805fcf, 0x00000000, 0xfd469501) == 0x46448b56
      && Rotate(0x46448b56, 22) == 0xd5919122 && Plus(0xd31ddc83, 0xd5919122) == 0xa8af6da5
      && RoundFunction(8, 0xa8af6da5, 0xd31ddc83, 0xe0a07db7) == 0xc00d5c93
      && Sum(0x3a9d5bcc, 0xc00d5c93, 0x00000000, 0x698098d8) == 0x642b5137
      && Rotate(0x642b5137, 7) == 0x15a89bb2 && Plus(0xa8af6da5, 0x15a89bb2) == 0xbe580957
      && RoundFunction(9, 0xbe580957, 0xa8af6da5, 0xd31ddc83) == 0xe90ddd85
      && Sum(0xe0a07db7, 0xe90ddd85, 0x00000000, 0x8b44f7af) == 0x54f352eb
      && Rotate(0x54f352eb, 12) == 0x352eb54f && Plus(0xbe580957, 0x352eb54f) == 0xf386bea6
      && RoundFunction(10, 0xf386bea6, 0xbe580957, 0xa8af6da5) == 0xba294907
      && Sum(0xd31ddc83, 0xba294907, 0x00000000, 0xffff5bb1) == 0x8d46813b
      && Rotate(0x8d46813b, 17) == 0x02771a8d && Plus(0xf386bea6, 0x02771a8d) == 0xf5fdd933
      && RoundFunction(11, 0xf5fdd933, 0xf386bea6, 0xbe580957) == 0xfb849866
      && Sum(0xa8af6da5, 0xfb849866, 0x00000000, 0x895cd7be) == 0x2d90ddc9
      && Rotate(0x2d90ddc9, 22) == 0x724b6437 && Plus(0xf5fdd933, 0x724b6437) == 0x68493d6a
      && RoundFunction(12, 0x68493d6a, 0xf5fdd933, 0xf386bea6) == 0xf3cf9ba6
      && Sum(0xbe580957, 0xf3cf9ba6, 0x00000000, 0x6b901122) == 0x1db7b61f
      && Rotate(0x1db7b61f, 7) == 0xdbdb0f8e && Plus(0x68493d6a, 0xdbdb0f8e) == 0x44244cf8
      && RoundFunction(13, 0x44244cf8, 0x68493d6a, 0xf5fdd933) == 0xf1d99d6b
      && Sum(0xf386bea6, 0xf1d99d6b, 0x00000000, 0xfd987193) == 0xe2f8cda4
      && Rotate(0xe2f8cda4, 12) == 0x8cda4e2f && Plus(0x44244cf8, 0x8cda4e2f) == 0xd0fe9b27
      && RoundFunction(14, 0xd0fe9b27, 0x44244cf8, 0x68493d6a) == 0x68252c68
      && Sum(0xf5fdd933, 0x68252c68, 0x00000008, 0xa679438e) == 0x049c4931
      && Rotate(0x049c4931, 17) == 0x92620938 && Plus(0xd0fe9b27, 0x92620938) == 0x6360a45f
      && RoundFunction(15, 0x6360a45f, 0xd0fe9b27, 0x44244cf8) == 0x4464c8a7
      && Sum(0x68493d6a, 0x4464c8a7, 0x00000000, 0x49b40821) == 0xf6620e32
      && Rotate(0xf6620e32, 22) == 0x8cbd9883 && Plus(0x6360a45f, 0x8cbd9883) == 0xf01e3ce2
  {
  }

  lemma Entries3()
    ensures
      && T(16) == 0xf61e2562 && T(17) == 0xc040b340 && T(18) == 0x265e5a51 && T(19) == 0xe9b6c7aa
      && T(20) == 0xd62f105d && T(21) == 0x02441453 && T(22) == 0xd8a1e681 && T(23) == 0xe7d3fbc8
  {
  }

  lemma Entries4()
    ensures
      && T(24) == 0x21e1cde6 && T(25) == 0xc33707d6 && T(26) == 0xf4d50d87 && T(27) == 0x455a14ed
      && T(28) == 0xa9e3e905 && T(29) == 0xfcefa3f8 && T(30) == 0x676f02d9 && T(31) == 0x8d2a4c8a
  {
  }

  lemma Choices2()
    ensures
      && Shift(16) == 5 && Index(16) == 1 && Shift(17) == 9 && Index(17) == 6
      && Shift(18) == 14 && Index(18) == 11 && Shift(19) == 20 && Index(19) == 0
      && Shift(20) == 5 && Index(20) == 5 && Shift(21) == 9 && Index(21) == 10
      && Shift(22) == 14 && Index(22) == 15 && Shift(23) == 20 && Index(23) == 4
      && Shift(24) == 5 && Index(24) == 9 && Shift(25) == 9 && Index(25) == 14
      && Shift(26) == 14 && Index(26) == 3 && Shift(27) == 20 && Index(27) == 8
      && Shift(28) == 5 && Index(28) == 13 && Shift(29) == 9 && Index(29) == 2
      && Shift(30) == 14 && Index(30) == 7 && Shift(31) == 20 && Index(31) == 12
  {
  }

  lemma Values2()
    ensures
      && RoundFunction(16, 0xf01e3ce2, 0x6360a45f, 0xd0fe9b27) == 0xf31e3c7a
      && Sum(0x44244cf8, 0xf31e3c7a, 0x00000000, 0xf61e2562) == 0x2d60aed4
      && Rotate(0x2d60aed4, 5) == 0xac15da85 && Plus(0xf01e3ce2, 0xac15da85) == 0x9c341767
      && RoundFunction(17, 0x9c341767, 0xf01e3ce2, 0x6360a45f) == 0x903e1ce7
      && Sum(0xd0fe9b27, 0x903e1ce7, 0x00000000, 0xc040b340) == 0x217d6b4e
      && Rotate(0x217d6b4e, 9) == 0xfad69c42 && Plus(0x9c341767, 0xfad69c42) == 0x970ab3a9
      && RoundFunction(18, 0x970ab3a9, 0x9c341767, 0xf01e3ce2) == 0x9c2a33a5
      && Sum(0x6360a45f, 0x9c2a33a5, 0x00000000, 0x265e5a51) == 0x25e93255
      && Rotate(0x25e93255, 14) == 0x4c95497a && Plus(0x970ab3a9, 0x4c95497a) == 0xe39ffd23
      && RoundFunction(19, 0xe39ffd23, 0x970ab3a9, 0x9c341767) == 0x831eb5ab
      && Sum(0xf01e3ce2, 0x831eb5ab, 0x00008061, 0xe9b6c7aa) == 0x5cf43a98
      && Rotate(0x5cf43a98, 20) == 0xa985cf43 && Plus(0xe39ffd23, 0xa985cf43) == 0x8d25cc66
      && RoundFunction(20, 0x8d25cc66, 0xe39ffd23, 0x970ab3a9) == 0xe595cc22
      && Sum(0x9c341767, 0xe595cc22, 0x00000000, 0xd62f105d) == 0x57f8f3e6
      && Rotate(0x57f8f3e6, 5) == 0xff1e7cca && Plus(0x8d25cc66, 0xff1e7cca) == 0x8c444930
      && RoundFunction(21, 0x8c444930, 0x8d25cc66, 0xe39ffd23) == 0x8c244964
      && Sum(0x970ab3a9, 0x8c244964, 0x00000000, 0x02441453) == 0x25731160
      && Rotate(0x25731160, 9) == 0xe622c04a && Plus(0x8c444930, 0xe622c04a) == 0x7267097a
      && RoundFunction(22, 0x7267097a, 0x8c444930, 0x8d25cc66) == 0x00650972
      && Sum(0xe39ffd23, 0x00650972, 0x00000000, 0xd8a1e681) == 0xbca6ed16
      && Rotate(0xbca6ed16, 14) == 0xbb45af29 && Plus(0x7267097a, 0xbb45af29) == 0x2dacb8a3
      && RoundFunction(23, 0x2dacb8a3, 0x7267097a, 0x8c444930) == 0x7e27086a
      && Sum(0x8d25cc66, 0x7e27086a, 0x00000000, 0xe7d3fbc8) == 0xf320d098
      && Rotate(0xf320d098, 20) == 0x098f320d && Plus(0x2dacb8a3, 0x098f320d) == 0x373beab0
      && RoundFunction(24, 0x373beab0, 0x2dacb8a3, 0x7267097a) == 0x3fabb8b1
      && Sum(0x8c444930, 0x3fabb8b1, 0x00000000, 0x21e1cde6) == 0xedd1cfc7
      && Rotate(0xedd1cfc7, 5) == 0xba39f8fd && Plus(0x373beab0, 0xba39f8fd) == 0xf175e3ad
      && RoundFunction(25, 0xf175e3ad, 0x373beab0, 0x2dacb8a3) == 0x3337e2b1
      && Sum(0x7267097a, 0x3337e2b1, 0x00000008, 0xc33707d6) == 0x68d5f409
      && Rotate(0x68d5f409, 9) == 0xabe812d1 && Plus(0xf175e3ad, 0xabe812d1) == 0x9d5df67e
      && RoundFunction(26, 0x9d5df67e, 0xf175e3ad, 0x373beab0) == 0xd55de33d
      && Sum(0x2dacb8a3, 0xd55de33d, 0x00000000, 0xf4d50d87) == 0xf7dfa967
      && Rotate(0xf7dfa967, 14) == 0xea59fdf7 && Plus(0x9d5df67e, 0xea59fdf7) == 0x87b7f475
      && RoundFunction(27, 0x87b7f475, 0x9d5df67e, 0xf175e3ad) == 0x8d3df477
      && Sum(0x373beab0, 0x8d3df477, 0x00000000, 0x455a14ed) == 0x09d3f414
      && Rotate(0x09d3f414, 20) == 0x41409d3f && Plus(0x87b7f475, 0x41409d3f) == 0xc8f891b4
      && RoundFunction(28, 0xc8f891b4, 0x87b7f475, 0x9d5df67e) == 0x8afa9035
      && Sum(0xf175e3ad, 0x8afa9035, 0x00000000, 0xa9e3e905) == 0x26545ce7
      && Rotate(0x26545ce7, 5) == 0xca8b9ce4 && Plus(0xc8f891b4, 0xca8b9ce4) == 0x93842e98
      && RoundFunction(29, 0x93842e98, 0xc8f891b4, 0x87b7f475) == 0xcbcc2590
      && Sum(0x9d5df67e, 0xcbcc2590, 0x00000000, 0xfcefa3f8) == 0x6619c006
      && Rotate(0x6619c006, 9) == 0x33800ccc && Plus(0x93842e98, 0x33800ccc) == 0xc7043b64
      && RoundFunction(30, 0xc7043b64, 0x93842e98, 0xc8f891b4) == 0xd3043f2c
      && Sum(0x87b7f475, 0xd3043f2c, 0x00000000, 0x676f02d9) == 0xc22b367a
      && Rotate(0xc22b367a, 14) == 0xcd9eb08a && Plus(0xc7043b64, 0xcd9eb08a) == 0x94a2ebee
      && RoundFunction(31, 0x94a2ebee, 0xc7043b64, 0x93842e98) == 0xd4803bec
      && Sum(0xc8f891b4, 0xd4803bec, 0x00000000, 0x8d2a4c8a) == 0x2aa31a2a
      && Rotate(0x2aa31a2a, 20) == 0xa2a2aa31 && Plus(0x94a2ebee, 0xa2a2aa31) == 0x3745961f
  {
  }

  lemma Entries5()
    ensures
      && T(32) == 0xfffa3942 && T(33) == 0x8771f681 && T(34) == 0x6d9d6122 && T(35) == 0xfde5380c
      && T(36) == 0xa4beea44 && T(37) == 0x4bdecfa9 && T(38) == 0xf6bb4b60 && T(39) == 0xbebfbc70
  {
  }

  lemma Entries6()
    ensures
      && T(40) == 0x289b7ec6 && T(41) == 0xeaa127fa && T(42) == 0xd4ef3085 && T(43) == 0x04881d05
      && T(44) == 0xd9d4d039 && T(45) == 0xe6db99e5 && T(46) == 0x1fa27cf8 && T(47) == 0xc4ac5665
  {
  }

  lemma Choices3()
    ensures
      && Shift(32) == 4 && Index(32) == 5 && Shift(33) == 11 && Index(33) == 8
      && Shift(34) == 16 && Index(34) == 11 && Shift(35) == 23 && Index(35) == 14
      && Shift(36) == 4 && Index(36) == 1 && Shift(37) == 11 && Index(37) == 4
      && Shift(38) == 16 && Index(38) == 7 && Shift(39) == 23 && Index(39) == 10
      && Shift(40) == 4 && Index(40) == 13 && Shift(41) == 11 && Index(41) == 0
      && Shift(42) == 16 && Index(42) == 3 && Shift(43) == 23 && Index(43) == 6
      && Shift(44) == 4 && Index(44) == 9 && Shift(45) == 11 && Index(45) == 12
      && Shift(46) == 16 && Index(46) == 15 && Shift(47) == 23 && Index(47) == 2
  {
  }

  lemma Values3()
    ensures
      && RoundFunction(32, 0x3745961f, 0x94a2ebee, 0xc7043b64) == 0x64e34695
      && Sum(0x93842e98, 0x64e34695, 0x00000000, 0xfffa3942) == 0xf861ae6f
      && Rotate(0xf861ae6f, 4) == 0x861ae6ff && Plus(0x3745961f, 0x861ae6ff) == 0xbd607d1e
      && RoundFunction(33, 0xbd607d1e, 0x3745961f, 0x94a2ebee) == 0x1e8700ef
      && Sum(0xc7043b64, 0x1e8700ef, 0x00000000, 0x8771f681) == 0x6cfd32d4
      && Rotate(0x6cfd32d4, 11) == 0xe996a367 && Plus(0xbd607d1e, 0xe996a367) == 0xa6f72085
      && RoundFunction(34, 0xa6f72085, 0xbd607d1e, 0x3745961f) == 0x2cd2cb84
      && Sum(0x94a2ebee, 0x2cd2cb84, 0x00000000, 0x6d9d6122) == 0x2f131894
      && Rotate(0x2f131894, 16) == 0x18942f13 && Plus(0xa6f72085, 0x18942f13) == 0xbf8b4f98
      && RoundFunction(35, 0xbf8b4f98, 0xa6f72085, 0xbd607d1e) == 0xa41c1203
      && Sum(0x3745961f, 0xa41c1203, 0x00000008, 0xfde5380c) == 0xd946e036
      && Rotate(0xd946e036, 23) == 0x1b6ca370 && Plus(0xbf8b4f98, 0x1b6ca370) == 0xdaf7f308
      && RoundFunction(36, 0xdaf7f308, 0xbf8b4f98, 0xa6f72085) == 0xc38b9c15
      && Sum(0xbd607d1e, 0xc38b9c15, 0x00000000, 0xa4beea44) == 0x25ab0377
      && Rotate(0x25ab0377, 4) == 0x5ab03772 && Plus(0xdaf7f308, 0x5ab03772) == 0x35a82a7a
      && RoundFunction(37, 0x35a82a7a, 0xdaf7f308, 0xbf8b4f98) == 0x50d496ea
      && Sum(0xa6f72085, 0x50d496ea, 0x00000000, 0x4bdecfa9) == 0x43aa8718
      && Rotate(0x43aa8718, 11) == 0x5438c21d && Plus(0x35a82a7a, 0x5438c21d) == 0x89e0ec97
      && RoundFunction(38, 0x89e0ec97, 0x35a82a7a, 0xdaf7f308) == 0x66bf35e5
      && Sum(0xbf8b4f98, 0x66bf35e5, 0x00000000, 0xf6bb4b60) == 0x1d05d0dd
      && Rotate(0x1d05d0dd, 16) == 0xd0dd1d05 && Plus(0x89e0ec97, 0xd0dd1d05) == 0x5abe099c
      && RoundFunction(39, 0x5abe099c, 0x89e0ec97, 0x35a82a7a) == 0xe6f6cf71
      && Sum(0xdaf7f308, 0xe6f6cf71, 0x00000000, 0xbebfbc70) == 0x80ae7ee9
      && Rotate(0x80ae7ee9, 23) == 0x74c0573f && Plus(0x5abe099c, 0x74c0573f) == 0xcf7e60db
      && RoundFunction(40, 0xcf7e60db, 0x5abe099c, 0x89e0ec97) == 0x1c2085d0
      && Sum(0x35a82a7a, 0x1c2085d0, 0x00000000, 0x289b7ec6) == 0x7a642f10
      && Rotate(0x7a642f10, 4) == 0xa642f107 && Plus(0xcf7e60db, 0xa642f107) == 0x75c151e2
      && RoundFunction(41, 0x75c151e2, 0xcf7e60db, 0x5abe099c) == 0xe00138a5
      && Sum(0x89e0ec97, 0xe00138a5, 0x00008061, 0xeaa127fa) == 0x5483cd97
      && Rotate(0x5483cd97, 11) == 0x1e6cbaa4 && Plus(0x75c151e2, 0x1e6cbaa4) == 0x942e0c86
      && RoundFunction(42, 0x942e0c86, 0x75c151e2, 0xcf7e60db) == 0x2e913dbf
      && Sum(0x5abe099c, 0x2e913dbf, 0x00000000, 0xd4ef3085) == 0x5e3e77e0
      && Rotate(0x5e3e77e0, 16) == 0x77e05e3e && Plus(0x942e0c86, 0x77e05e3e) == 0x0c0e6ac4
      && RoundFunction(43, 0x0c0e6ac4, 0x942e0c86, 0x75c151e2) == 0xede137a0
      && Sum(0xcf7e60db, 0xede137a0, 0x00000000, 0x04881d05) == 0xc1e7b580
      && Rotate(0xc1e7b580, 23) == 0xc060f3da && Plus(0x0c0e6ac4, 0xc060f3da) == 0xcc6f5e9e
      && RoundFunction(44, 0xcc6f5e9e, 0x0c0e6ac4, 0x942e0c86) == 0x544f38dc
      && Sum(0x75c151e2, 0x544f38dc, 0x00000000, 0xd9d4d039) == 0xa3e55af7
      && Rotate(0xa3e55af7, 4) == 0x3e55af7a && Plus(0xcc6f5e9e, 0x3e55af7a) == 0x0ac50e18
      && RoundFunction(45, 0x0ac50e18, 0xcc6f5e9e, 0x0c0e6ac4) == 0xcaa43a42
      && Sum(0x942e0c86, 0xcaa43a42, 0x00000000, 0xe6db99e5) == 0x45ade0ad
      && Rotate(0x45ade0ad, 11) == 0x6f056a2d && Plus(0x0ac50e18, 0x6f056a2d) == 0x79ca7845
      && RoundFunction(46, 0x79ca7845, 0x0ac50e18, 0xcc6f5e9e) == 0xbf6028c3
      && Sum(0x0c0e6ac4, 0xbf6028c3, 0x00000000, 0x1fa27cf8) == 0xeb11107f
      && Rotate(0xeb11107f, 16) == 0x107feb11 && Plus(0x79ca7845, 0x107feb11) == 0x8a4a6356
      && RoundFunction(47, 0x8a4a6356, 0x79ca7845, 0x0ac50e18) == 0xf945150b
      && Sum(0xcc6f5e9e, 0xf945150b, 0x00000000, 0xc4ac5665) == 0x8a60ca0e
      && Rotate(0x8a60ca0e, 23) == 0x07453065 && Plus(0x8a4a6356, 0x07453065) == 0x918f93bb
  {
  }

  lemma Entries7()
    ensures
      && T(48) == 0xf4292244 && T(49) == 0x432aff97 && T(50) == 0xab9423a7 && T(51) == 0xfc93a039
      && T(52) == 0x655b59c3 && T(53) == 0x8f0ccc92 && T(54) == 0xffeff47d && T(55) == 0x85845dd1
  {
  }

  lemma Entries8()
    ensures
      && T(56) == 0x6fa87e4f && T(57) == 0xfe2ce6e0 && T(58) == 0xa3014314 && T(59) == 0x4e0811a1
      && T(60) == 0xf7537e82 && T(61) == 0xbd3af235 && T(62) == 0x2ad7d2bb && T(63) == 0xeb86d391
  {
  }

  lemma Choices4()
    ensures
      && Shift(48) == 6 && Index(48) == 0 && Shift(49) == 10 && Index(49) == 7
      && Shift(50) == 15 && Index(50) == 14 && Shift(51) == 21 && Index(51) == 5
      && Shift(52) == 6 && Index(52) == 12 && Shift(53) == 10 && Index(53) == 3
      && Shift(54) == 15 && Index(54) == 10 && Shift(55) == 21 && Index(55) == 1
      && Shift(56) == 6 && Index(56) == 8 && Shift(57) == 10 && Index(57) == 15
      && Shift(58) == 15 && Index(58) == 6 && Shift(59) == 21 && Index(59) == 13
      && Shift(60) == 6 && Index(60) == 4 && Shift(61) == 10 && Index(61) == 11
      && Shift(62) == 15 && Index(62) == 2 && Shift(63) == 21 && Index(63) == 9
  {
  }

  lemma Values4()
    ensures
      && RoundFunction(48, 0x918f93bb, 0x8a4a6356, 0x79ca7845) == 0x1df5f4ed
      && Sum(0x0ac50e18, 0x1df5f4ed, 0x00008061, 0xf4292244) == 0x1ce4a5aa
      && Rotate(0x1ce4a5aa, 6) == 0x39296a87 && Plus(0x918f93bb, 0x39296a87) == 0xcab8fe42
      && RoundFunction(49, 0xcab8fe42, 0x918f93bb, 0x8a4a6356) == 0x6e326d50
      && Sum(0x79ca7845, 0x6e326d50, 0x00000000, 0x432aff97) == 0x2b27e52c
      && Rotate(0x2b27e52c, 10) == 0x9f94b0ac && Plus(0xcab8fe42, 0x9f94b0ac) == 0x6a4daeee
      && RoundFunction(50, 0x6a4daeee, 0xcab8fe42, 0x918f93bb) == 0xa4c510ac
      && Sum(0x8a4a6356, 0xa4c510ac, 0x00000008, 0xab9423a7) == 0xdaa397b1
      && Rotate(0xdaa397b1, 15) == 0xcbd8ed51 && Plus(0x6a4daeee, 0xcbd8ed51) == 0x36269c3f
      && RoundFunction(51, 0x36269c3f, 0x6a4daeee, 0xcab8fe42) == 0x5d2a3351
      && Sum(0x918f93bb, 0x5d2a3351, 0x00000000, 0xfc93a039) == 0xeb4d6745
      && Rotate(0xeb4d6745, 21) == 0xe8bd69ac && Plus(0x36269c3f, 0xe8bd69ac) == 0x1ee405eb
      && RoundFunction(52, 0x1ee405eb, 0x36269c3f, 0x6a4daeee) == 0xa9d0c9c4
      && Sum(0xcab8fe42, 0xa9d0c9c4, 0x00000000, 0x655b59c3) == 0xd9e521c9
      && Rotate(0xd9e521c9, 6) == 0x79487276 && Plus(0x1ee405eb, 0x79487276) == 0x982c7861
      && RoundFunction(53, 0x982c7861, 0x1ee405eb, 0x36269c3f) == 0xc7197e0a
      && Sum(0x6a4daeee, 0xc7197e0a, 0x00000000, 0x8f0ccc92) == 0xc073f98a
      && Rotate(0xc073f98a, 10) == 0xcfe62b01 && Plus(0x982c7861, 0xcfe62b01) == 0x6812a362
      && RoundFunction(54, 0x6812a362, 0x982c7861, 0x1ee405eb) == 0x71378317
      && Sum(0x36269c3f, 0x71378317, 0x00000000, 0xffeff47d) == 0xa74e13d3
      && Rotate(0xa74e13d3, 15) == 0x09e9d3a7 && Plus(0x6812a362, 0x09e9d3a7) == 0x71fc7709
      && RoundFunction(55, 0x71fc7709, 0x6812a362, 0x982c7861) == 0x1fed54fd
      && Sum(0x1ee405eb, 0x1fed54fd, 0x00000000, 0x85845dd1) == 0xc455b8b9
      && Rotate(0xc455b8b9, 21) == 0x17388ab7 && Plus(0x71fc7709, 0x17388ab7) == 0x893501c0
      && RoundFunction(56, 0x893501c0, 0x71fc7709, 0x6812a362) == 0xee012ad4
      && Sum(0x982c7861, 0xee012ad4, 0x00000000, 0x6fa87e4f) == 0xf5d62184
      && Rotate(0xf5d62184, 6) == 0x7588613d && Plus(0x893501c0, 0x7588613d) == 0xfebd62fd
      && RoundFunction(57, 0xfebd62fd, 0x893501c0, 0x71fc7709) == 0x778aeb3f
      && Sum(0x6812a362, 0x778aeb3f, 0x00000000, 0xfe2ce6e0) == 0xddca7581
      && Rotate(0xddca7581, 10) == 0x29d60777 && Plus(0xfebd62fd, 0x29d60777) == 0x28936a74
      && RoundFunction(58, 0x28936a74, 0xfebd62fd, 0x893501c0) == 0x80669c82
      && Sum(0x71fc7709, 0x80669c82, 0x00000000, 0xa3014314) == 0x9564569f
      && Rotate(0x9564569f, 15) == 0x2b4fcab2 && Plus(0x28936a74, 0x2b4fcab2) == 0x53e33526
      && RoundFunction(59, 0x53e33526, 0x28936a74, 0xfebd62fd) == 0x7b70d752
      && Sum(0x893501c0, 0x7b70d752, 0x00000000, 0x4e0811a1) == 0x52adeab3
      && Rotate(0x52adeab3, 21) == 0x566a55bd && Plus(0x53e33526, 0x566a55bd) == 0xaa4d8ae3
      && RoundFunction(60, 0xaa4d8ae3, 0x53e33526, 0x28936a74) == 0xac8eaacd
      && Sum(0xfebd62fd, 0xac8eaacd, 0x00000000, 0xf7537e82) == 0xa29f8c4c
      && Rotate(0xa29f8c4c, 6) == 0xa7e31328 && Plus(0xaa4d8ae3, 0xa7e31328) == 0x52309e0b
      && RoundFunction(61, 0x52309e0b, 0xaa4d8ae3, 0x53e33526) == 0x54715438
      && Sum(0x28936a74, 0x54715438, 0x00000000, 0xbd3af235) == 0x3a3fb0e1
      && Rotate(0x3a3fb0e1, 10) == 0xfec384e8 && Plus(0x52309e0b, 0xfec384e8) == 0x50f422f3
      && RoundFunction(62, 0x50f422f3, 0x52309e0b, 0xaa4d8ae3) == 0x07c6e9f4
      && Sum(0x53e33526, 0x07c6e9f4, 0x00000000, 0x2ad7d2bb) == 0x8681f1d5
      && Rotate(0x8681f1d5, 15) == 0xf8eac340 && Plus(0x50f422f3, 0xf8eac340) == 0x49dee633
      && RoundFunction(63, 0x49dee633, 0x50f422f3, 0x52309e0b) == 0xbd2bc504
      && Sum(0xaa4d8ae3, 0xbd2bc504, 0x00000000, 0xeb86d391) == 0x53002378
      && Rotate(0x53002378, 21) == 0x6f0a6004 && Plus(0x49dee633, 0x6f0a6004) == 0xb8e94637
  {
  }

  /** The words of the block. */
  lemma WordsAre()
    ensures
      && WORDS[0] == 0x00008061 && WORDS[14] == 8
      && WORDS[1] == 0 && WORDS[2] == 0 && WORDS[3] == 0 && WORDS[4] == 0 && WORDS[5] == 0
      && WORDS[6] == 0 && WORDS[7] == 0 && WORDS[8] == 0 && WORDS[9] == 0 && WORDS[10] == 0
      && WORDS[11] == 0 && WORDS[12] == 0 && WORDS[13] == 0 && WORDS[15] == 0
  {
  }

  lemma Round1()
    ensures Operations(INITIAL, WORDS, 16) == Chain(0x44244cf8, 0xf01e3ce2, 0x6360a45f, 0xd0fe9b27)
  {
    assert Operations(INITIAL, WORDS, 0) == INITIAL;
    WordsAre();
    Entries1();
    Entries2();
    Choices1();
    Values1();
    hide RoundFunction, Sum, T, Index, Shift, Rotate, Plus;
    assert Operations(INITIAL, WORDS, 4) == Chain(0xa56017f4, 0x607d9686, 0xe65857a7, 0xf2d58361);
    assert Operations(INITIAL, WORDS, 8) == Chain(0x3a9d5bcc, 0xa8af6da5, 0xd31ddc83, 0xe0a07db7);
    assert Operations(INITIAL, WORDS, 12) == Chain(0xbe580957, 0x68493d6a, 0xf5fdd933, 0xf386bea6);
  }

  lemma Round2()
    ensures Operations(INITIAL, WORDS, 32) == Chain(0x93842e98, 0x3745961f, 0x94a2ebee, 0xc7043b64)
  {
    Round1();
    WordsAre();
    Entries3();
    Entries4();
    Choices2();
    Values2();
    hide RoundFunction, Sum, T, Index, Shift, Rotate, Plus;
    assert Operations(INITIAL, WORDS, 20) == Chain(0x9c341767, 0x8d25cc66, 0xe39ffd23, 0x970ab3a9);
    assert Operations(INITIAL, WORDS, 24) == Chain(0x8c444930, 0x373beab0, 0x2dacb8a3, 0x7267097a);
    assert Operations(INITIAL, WORDS, 28) == Chain(0xf175e3ad, 0xc8f891b4, 0x87b7f475, 0x9d5df67e);
  }

  lemma Round3()
    ensures Operations(INITIAL, WORDS, 48) == Chain(0x0ac50e18, 0x918f93bb, 0x8a4a6356, 0x79ca7845)
  {
    Round2();
    WordsAre();
    Entries5();
    Entries6();
    Choices3();
    Values3();
    hide RoundFunction, Sum, T, Index, Shift, Rotate, Plus;
    assert Operations(INITIAL, WORDS, 36) == Chain(0xbd607d1e, 0xdaf7f308, 0xbf8b4f98, 0xa6f72085);
    assert Operations(INITIAL, WORDS, 40) == Chain(0x35a82a7a, 0xcf7e60db, 0x5abe099c, 0x89e0ec97);
    assert Operations(INITIAL, WORDS, 44) == Chain(0x75c151e2, 0xcc6f5e9e, 0x0c0e6ac4, 0x942e0c86);
  }

  lemma Round4()
    ensures Operations(INITIAL, WORDS, 64) == Chain(0x52309e0b, 0xb8e94637, 0x49dee633, 0x50f422f3)
  {
    Round3();
    WordsAre();
    Entries7();
    Entries8();
    Choices4();
    Values4();
    hide RoundFunction, Sum, T, Index, Shift, Rotate, Plus;
    assert Operations(INITIAL, WORDS, 52) == Chain(0xcab8fe42, 0x1ee405eb, 0x36269c3f, 0x6a4daeee);
    assert Operations(INITIAL, WORDS, 56) == Chain(0x982c7861, 0x893501c0, 0x71fc7709, 0x6812a362);
    assert Operations(INITIAL, WORDS, 60) == Chain(0xfebd62fd, 0xaa4d8ae3, 0x53e33526, 0x28936a74);
  }

  lemma PaddedA()
    ensures
      var r := Padded([97]);
      && |r| == 64 && r[0] == 97 && r[1] == 0x80 && r[56] == 8
      && forall k | 2 <= k < 64 && k != 56 :: r[k] == 0
  {
    assert PadLength(1) == 55;
    EightAsBytes();
    hide Low8;
    var front: Bytes := [97] + ([0x80] + Zeros(54));
    assert Padded([97]) == front + Low8(8);
  }

  lemma EightAsBytes()
    ensures Low8(8) == [8, 0, 0, 0, 0, 0, 0, 0]
  {
  }

  lemma ThreeWords()
    ensures FourBytes(Bits(97), Bits(0x80), Bits(0), Bits(0)) == 0x00008061
    ensures FourBytes(Bits(8), Bits(0), Bits(0), Bits(0)) == 8
    ensures FourBytes(Bits(0), Bits(0), Bits(0), Bits(0)) == 0
  {
  }

  lemma BlockOfA()
    ensures |Padded([97])| == 64 && WordsOf(Padded([97])) == WORDS
  {
    PaddedA();
    ThreeWords();
    hide Padded, FourBytes, Bits;
    var block := Padded([97]);
    forall j | 0 <= j < 16
      ensures WordAt(block, j) == WORDS[j]
    {
      assert 1 <= j != 14 ==> WORDS[j] == 0;
    }
  }

  lemma OneBlock(c: Chain, block: Bytes)
    requires |block| == 64
    ensures Blocks(c, block) == Add(Operations(c, WordsOf(block), 64), c)
  {
    hide Operations, WordsOf, Add;
    assert block[..64] == block && block[64..] == [];
  }

  lemma LastWords()
    ensures
      Add(Chain(0x52309e0b, 0xb8e94637, 0x49dee633, 0x50f422f3), INITIAL) ==
        Chain(0xb975c10c, 0xa8b6f1c0, 0xe299c331, 0x61267769)
  {
  }

  lemma Written()
    ensures WordBytes(0xb975c10c) == [0x0c, 0xc1, 0x75, 0xb9] && WordBytes(0xa8b6f1c0) == [0xc0, 0xf1, 0xb6, 0xa8]
    ensures WordBytes(0xe299c331) == [0x31, 0xc3, 0x99, 0xe2] && WordBytes(0x61267769) == [0x69, 0x77, 0x26, 0x61]
  {
  }

  /** The digest of "a" is the one that RFC 1321 lists. */
  lemma DigestOfA()
    ensures Digest([97]) == ANSWER
  {
    BlockOfA();
    Round4();
    LastWords();
    Written();
    hide Operations, WordsOf, Padded, Add, WordBytes, Blocks;
    OneBlock(INITIAL, Padded([97]));
  }
}
