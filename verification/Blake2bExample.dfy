/** The worked example of Appendix A of RFC 7693: BLAKE2b-512 of "abc", round by
    round. */
module Blake2bExample {
  import opened Bytes
  import opened Blake2b

  // ------------------------------------------------------------------
  // A round, column by column and then diagonal by diagonal
  // ------------------------------------------------------------------

  datatype Four = Four(a: bv64, b: bv64, c: bv64, d: bv64)

  /** Half a mixing of four words, with its two rotations. */
  function Stir(q: Four, x: bv64, m: nat, n: nat): Four
    requires 0 < m < 64 && 0 < n < 64
  {
    hide Add, Xor, Rotr;
    var a := Add(Add(q.a, q.b), x);
    var d := Rotr(Xor(q.d, a), m);
    var c := Add(q.c, d);
    Four(a, Rotr(Xor(q.b, c), n), c, d)
  }

  function Quarter(q: Four, x: bv64, y: bv64): Four
  {
    hide Stir;
    Stir(Stir(q, x, 32, 24), y, 16, 63)
  }

  lemma UpdateTwice(v: seq<bv64>, a: nat, b: nat, c: nat, d: nat, p: Four, q: Four)
    requires |v| == 16
    requires a < 16 && b < 16 && c < 16 && d < 16 && a != b && a != c && a != d && b != c && b != d && c != d
    ensures var w := v[a := p.a][d := p.d][c := p.c][b := p.b][a := q.a][d := q.d][c := q.c][b := q.b];
            && w[a] == q.a && w[b] == q.b && w[c] == q.c && w[d] == q.d
            && forall i :: 0 <= i < 16 && i != a && i != b && i != c && i != d ==> w[i] == v[i]
  {
  }

  lemma MixesFour(v: Work, a: nat, b: nat, c: nat, d: nat, x: bv64, y: bv64)
    requires a < 16 && b < 16 && c < 16 && d < 16 && a != b && a != c && a != d && b != c && b != d && c != d
    ensures var q := Quarter(Four(v[a], v[b], v[c], v[d]), x, y); var w := G(v, a, b, c, d, x, y);
            && w[a] == q.a && w[b] == q.b && w[c] == q.c && w[d] == q.d
            && forall i :: 0 <= i < 16 && i != a && i != b && i != c && i != d ==> w[i] == v[i]
  {
    hide Add, Xor, Rotr, SIGMA, TABLE, IV;
    var q := Four(v[a], v[b], v[c], v[d]);
    UpdateTwice(v, a, b, c, d, Stir(q, x, 32, 24), Quarter(q, x, y));
  }

  /** v seen as a matrix of four rows, by its columns. */
  predicate Is(v: Work, p: Four, q: Four, r: Four, s: Four)
  {
    && p == Four(v[0], v[4], v[8], v[12]) && q == Four(v[1], v[5], v[9], v[13])
    && r == Four(v[2], v[6], v[10], v[14]) && s == Four(v[3], v[7], v[11], v[15])
  }

  lemma ColumnsMix(v: Work, p: Four, q: Four, r: Four, s: Four, x: Work)
    requires Is(v, p, q, r, s)
    ensures Is(AfterColumns(v, x), Quarter(p, x[0], x[1]), Quarter(q, x[2], x[3]), Quarter(r, x[4], x[5]), Quarter(s, x[6], x[7]))
  {
    hide Quarter, G, SIGMA, TABLE, IV;
    MixesFour(v, 0, 4, 8, 12, x[0], x[1]);
    var c0 := G(v, 0, 4, 8, 12, x[0], x[1]);
    MixesFour(c0, 1, 5, 9, 13, x[2], x[3]);
    var c1 := G(c0, 1, 5, 9, 13, x[2], x[3]);
    MixesFour(c1, 2, 6, 10, 14, x[4], x[5]);
    var c2 := G(c1, 2, 6, 10, 14, x[4], x[5]);
    MixesFour(c2, 3, 7, 11, 15, x[6], x[7]);
  }

  function AfterColumns(v: Work, x: Work): Work
  {
    hide G;
    var c0 := G(v, 0, 4, 8, 12, x[0], x[1]);
    var c1 := G(c0, 1, 5, 9, 13, x[2], x[3]);
    var c2 := G(c1, 2, 6, 10, 14, x[4], x[5]);
    G(c2, 3, 7, 11, 15, x[6], x[7])
  }

  lemma DiagonalsMix(v: Work, p: Four, q: Four, r: Four, s: Four, m: Work, k: seq<nat>, x: Work)
    requires Schedule(k) && Is(AfterColumns(v, x), p, q, r, s) && forall j :: 0 <= j < 16 ==> x[j] == m[k[j]]
    ensures var p2 := Quarter(Four(p.a, q.b, r.c, s.d), x[8], x[9]);
            var q2 := Quarter(Four(q.a, r.b, s.c, p.d), x[10], x[11]);
            var r2 := Quarter(Four(r.a, s.b, p.c, q.d), x[12], x[13]);
            var s2 := Quarter(Four(s.a, p.b, q.c, r.d), x[14], x[15]);
            Is(Round(v, m, k), Four(p2.a, s2.b, r2.c, q2.d), Four(q2.a, p2.b, s2.c, r2.d),
               Four(r2.a, q2.b, p2.c, s2.d), Four(s2.a, r2.b, q2.c, p2.d))
  {
    hide Quarter, G, SIGMA, TABLE, IV;
    var c3 := AfterColumns(v, x);
    MixesFour(c3, 0, 5, 10, 15, x[8], x[9]);
    var d0 := G(c3, 0, 5, 10, 15, x[8], x[9]);
    MixesFour(d0, 1, 6, 11, 12, x[10], x[11]);
    var d1 := G(d0, 1, 6, 11, 12, x[10], x[11]);
    MixesFour(d1, 2, 7, 8, 13, x[12], x[13]);
    var d2 := G(d1, 2, 7, 8, 13, x[12], x[13]);
    MixesFour(d2, 3, 4, 9, 14, x[14], x[15]);
  }

  /** What the four column mixings of a round make. */
  predicate FromColumns(v: Work, x: Work, p: Four, q: Four, r: Four, s: Four)
  {
    && Quarter(Four(v[0], v[4], v[8], v[12]), x[0], x[1]) == p
    && Quarter(Four(v[1], v[5], v[9], v[13]), x[2], x[3]) == q
    && Quarter(Four(v[2], v[6], v[10], v[14]), x[4], x[5]) == r
    && Quarter(Four(v[3], v[7], v[11], v[15]), x[6], x[7]) == s
  }

  /** What the four diagonal mixings make of that. */
  predicate FromDiagonals(p: Four, q: Four, r: Four, s: Four, x: Work, p2: Four, q2: Four, r2: Four, s2: Four)
  {
    && Quarter(Four(p.a, q.b, r.c, s.d), x[8], x[9]) == p2
    && Quarter(Four(q.a, r.b, s.c, p.d), x[10], x[11]) == q2
    && Quarter(Four(r.a, s.b, p.c, q.d), x[12], x[13]) == r2
    && Quarter(Four(s.a, p.b, q.c, r.d), x[14], x[15]) == s2
  }

  lemma RoundIs(v: Work, m: Work, k: seq<nat>, x: Work, p: Four, q: Four, r: Four, s: Four,
        p2: Four, q2: Four, r2: Four, s2: Four)
    requires Schedule(k) && forall j :: 0 <= j < 16 ==> x[j] == m[k[j]]
    requires FromColumns(v, x, p, q, r, s) && FromDiagonals(p, q, r, s, x, p2, q2, r2, s2)
    ensures Is(Round(v, m, k), Four(p2.a, s2.b, r2.c, q2.d), Four(q2.a, p2.b, s2.c, r2.d),
               Four(r2.a, q2.b, p2.c, s2.d), Four(s2.a, r2.b, q2.c, p2.d))
  {
    hide Quarter, AfterColumns, Round, SIGMA, TABLE, IV;
    ColumnsMix(v, Four(v[0], v[4], v[8], v[12]), Four(v[1], v[5], v[9], v[13]),
               Four(v[2], v[6], v[10], v[14]), Four(v[3], v[7], v[11], v[15]), x);
    DiagonalsMix(v, p, q, r, s, m, k, x);
  }

  // ------------------------------------------------------------------
  // The rounds
  // ------------------------------------------------------------------

  const ABC: bv64 := 0x636261

  /** The words of a block that holds "abc" and nothing else. */
  predicate AbcBlock(m: Work) { forall i :: 0 <= i < 16 ==> m[i] == if i == 0 then ABC else 0 }

  /** The one word that is not zero, where a round meets it. */
  function Met(z: nat): (x: Work)
    ensures forall j :: 0 <= j < 16 ==> x[j] == if j == z then ABC else 0
  {
    seq(16, j => if j == z then ABC else 0)
  }

  lemma MetAt(m: Work, k: seq<nat>, z: nat)
    requires AbcBlock(m) && Schedule(k) && forall j :: 0 <= j < 16 ==> (k[j] == 0 <==> j == z)
    ensures forall j :: 0 <= j < 16 ==> Met(z)[j] == m[k[j]]
  {
  }

  predicate Start(v: Work)
  {
    Is(v, Four(0x6a09e667f2bdc948, 0x510e527fade682d1, 0x6a09e667f3bcc908, 0x510e527fade682d2),
       Four(0xbb67ae8584caa73b, 0x9b05688c2b3e6c1f, 0xbb67ae8584caa73b, 0x9b05688c2b3e6c1f),
       Four(0x3c6ef372fe94f82b, 0x1f83d9abfb41bd6b, 0x3c6ef372fe94f82b, 0xe07c265404be4294),
       Four(0xa54ff53a5f1d36f1, 0x5be0cd19137e2179, 0xa54ff53a5f1d36f1, 0x5be0cd19137e2179))
  }

  predicate AfterZero(v: Work)
  {
    Is(v, Four(0x86b7c1568029bb79, 0x44ee6039bd86a9f7, 0xbec3ae837eac4887, 0xe02d0975b8d37a83),
       Four(0xc12cbcc809ff59f3, 0xa447c850aa694a7e, 0x6267fc79df9d6ad1, 0x1c7b754f08b7d193),
       Four(0xc6a5214cc0eaca8e, 0xde080f1bb1c0f84b, 0xfa87b01273fa6dbe, 0x8f885a76b6e578fe),
       Four(0x0c87cd524c14cc5d, 0x595cb8a9a1aca66c, 0x521a715c63e08d8a, 0x2318a24e2140fc64))
  }

  predicate AfterOne(v: Work)
  {
    Is(v, Four(0x53281e83806010f2, 0xbaabdbb2f386d9ae, 0x224e6a3369224f96, 0x92a3aaaa6d952b7f),
       Four(0x3594b403f81b4393, 0xca5425aec65a10a8, 0x500e125e58a92923, 0xc5fdf71090fae853),
       Four(0x8cd63c7462de0dff, 0xc6a22e2ff0f7aa48, 0xe9e4ad0d0e1a0d48, 0x2a8a40f15a462dd0),
       Four(0x85f693f3da53f974, 0xc6a56a51cb89c595, 0x85df9dc143c59a74, 0x572d17effdd37358))
  }

  predicate AfterTwo(v: Work)
  {
    Is(v, Four(0x60ed96aa7ad41725, 0xda0a61bcde4267ea, 0xa1677e19f37fd5da, 0xc804ebab11c99fa9),
       Four(0xe46a743c71800b9d, 0xb1dd230754d7bdee, 0x22bdce6976b08c51, 0x8e0cec959c715793),
       Four(0x1a04b543a01f156b, 0x25a1422779e06d14, 0xf1de8696bec11bf1, 0x7c45557fae0d4d89),
       Four(0xa2f8716e775c4877, 0xe6823ae4c3ff58a5, 0xa0ebd586a4a1d2c8, 0x716343f52fdd265e))
  }

  predicate AfterThree(v: Work)
  {
    Is(v, Four(0xbb2a77d3a8382351, 0x8a03c4cb7e97590a, 0xa9c9a8f17b1fc614, 0x086092cfb858437e),
       Four(0x45eb47971f23b103, 0x24192e49ebf54ea0, 0x55908187977514a0, 0x5c4be2156dbeecf9),
       Four(0x98be297f6e45c684, 0x4f82c9401cb32d7a, 0x5b44273e66b19d27, 0x2efede99ed4eff16),
       Four(0xa36077dee3370b89, 0x8ccd013726420dc4, 0xb6d5c9fca2579327, 0x3e7b5f234cd1f804))
  }

  predicate AfterFour(v: Work)
  {
    Is(v, Four(0xc79c15b3d423b099, 0x0f6d9eeed157da2a, 0xb2240b59e6d567d3, 0xb97d2d439e4df63d),
       Four(0x2da2224e8da97556, 0x6fe66467af88c0a9, 0x2643c2370e49ebfd, 0xc718e755294c9111),
       Four(0x77d2b26df1c45c55, 0x4eb0b76284c7aafb, 0x79e02eef20cdb1ae, 0x1f0893f2772bb373),
       Four(0x8934eb09a3456052, 0x299c8e725d954697, 0x64b3eed7bb602f39, 0x1205ea4a7859807d))
  }

  predicate AfterFive(v: Work)
  {
    Is(v, Four(0xe58f97d6385baee4, 0x7127cd48c76a7708, 0x41cca9073c8c4d0d, 0x8733794f07ac1500),
       Four(0x7640aa9764da137a, 0x9e472af0be3db3f6, 0x5c7912bc10df3b4b, 0xc67a6be42335aa6f),
       Four(0xdeb4c7c23efe287e, 0x0f244c62ddf71788, 0xa2c3abbd37510ee2, 0xacb22b28681e4c82),
       Four(0x70f6f41c8783c9f6, 0x219828aa83880842, 0xcb5668cc2a9f7859, 0xdb2161604cbc9828))
  }

  predicate AfterSix(v: Work)
  {
    Is(v, Four(0x6e2d286eeadedc81, 0x819415b56220c459, 0x04d769b3fcb048db, 0x92aac307cf2c0afc),
       Four(0xbcf02c0787e86358, 0xb63c479a6a769f02, 0xb78a9a33e9bff4dd, 0x30aaccc4f06dafaa),
       Four(0x57d56a56dd015edf, 0x258e55e0ec1f362a, 0x5777272ae1e930c0, 0x483893cc094f8863),
       Four(0x55d899d40a5d0d0a, 0x3a3b4ec60e19dfdc, 0x5a387849e578dbf6, 0xe03c6cc89c26bf92))
  }

  predicate AfterSeven(v: Work)
  {
    Is(v, Four(0xffc83ece76024d01, 0x81937da314a50838, 0xa3c2d35e4f685c10, 0x3841def6f4c9848a),
       Four(0x1be7bffb8c5cc5f9, 0xe1179523a2541963, 0xa53d3f73aa619624, 0x98662c85fba726d4),
       Four(0xa35a18cbac4c65b7, 0x3a1fad7106232b8f, 0x30bbcc0285a22f65, 0x7762439bd5a851bd),
       Four(0xb7c2c7e6d88c285f, 0x1c7ede92ab8b9c46, 0xbcefbb6a81539e5d, 0xb0b9f0d443d1a889))
  }

  predicate AfterEight(v: Work)
  {
    Is(v, Four(0x753a70a1e8faeadd, 0x58540ee1b1aebc47, 0x316cc9ebeefad8fc, 0x88ed6c4f3bd7a537),
       Four(0x6b0d43ca2c25d629, 0x63c5b9b80d294cb9, 0x4a466bcd021526a4, 0x19ae688ddf67f026),
       Four(0xf8343ba8b94f8c0b, 0x490870ecad27debd, 0x5da7f7638cec5669, 0x4d8707aab40f7e6d),
       Four(0xbc7d062b0db5cf35, 0xb2a90ddf667287fe, 0xd9c8826727d306fc, 0xfd3f572687fea4f1))
  }

  predicate AfterNine(v: Work)
  {
    Is(v, Four(0xe630c747ccd59c4f, 0x2d04185eac2a8cba, 0x6dd4fbc1de60165d, 0x2c6b25593d717852),
       Four(0xbc713d41127571ca, 0x5f311b88904056ec, 0xb3b0b51de3c86270, 0x37e8ca471beaa5f8),
       Four(0x46db183025025078, 0x40bd313009201aab, 0x900aee2f233b08e5, 0x2cfc1bac10ef4457),
       Four(0x6727e81260610140, 0x0099d4f82a2a1eab, 0xa07199d87ad058d8, 0x01369ec18746e775))
  }

  predicate AfterTen(v: Work)
  {
    Is(v, Four(0xe801f73b9768c760, 0xf4f1be86690b3c34, 0x35ba354a9c7df448, 0x61b5c0a41d491399),
       Four(0x35c6d22320be511d, 0x3cc88735d1475e4b, 0x4929cbe45679d73e, 0xb5c333457e12844a),
       Four(0x306f27584f65495e, 0x5dac67921ff76949, 0x733d1a17248f39db, 0xbd696be010d0d889),
       Four(0xb51776adf569a77b, 0x1cdb9d31ad70cc4e, 0x92d57b736f5f170a, 0x02231e1a917fe0bd))
  }

  predicate AfterEleven(v: Work)
  {
    Is(v, Four(0x12ef8a641ec4f6d6, 0xf42c16519ad5afa7, 0x75ab709bd3dcbf24, 0x885bef040ef6aa0b),
       Four(0xbced5de977c9faf5, 0xaa5ac1888e10467e, 0xee7ce1f345947aa4, 0xa4939a417bfb78a3),
       Four(0x733ca476c5148639, 0x217d930aa51787f3, 0xf8960d6c2faf5f5e, 0x646cbb7af6dce980),
       Four(0x97df596b0610f6fc, 0x906a6ff19e573942, 0xe332538a36b6d246, 0xe813a23c60af3b82))
  }

  lemma MixingsZero()
    ensures Quarter(Four(0x6a09e667f2bdc948, 0x510e527fade682d1, 0x6a09e667f3bcc908, 0x510e527fade682d2), ABC, 0)
            == Four(0xf0c9aa0f86491dea, 0xb7defc3d0277e11f, 0xee5e0f39647a9fff, 0x7772fc2886a76c5f)
    ensures Quarter(Four(0xbb67ae8584caa73b, 0x9b05688c2b3e6c1f, 0xbb67ae8584caa73b, 0x9b05688c2b3e6c1f), 0, 0)
            == Four(0x63b7dedf4a4e5ad3, 0xed49c30cd311d50e, 0x7bee264bf3cdadfe, 0x254ef880a19a8726)
    ensures Quarter(Four(0x3c6ef372fe94f82b, 0x1f83d9abfb41bd6b, 0x3c6ef372fe94f82b, 0xe07c265404be4294), 0, 0)
            == Four(0xbe50eb454e0a93d7, 0xa056671704b00d71, 0xb2752dadd66bd8f9, 0x789d43381c47f584)
    ensures Quarter(Four(0xa54ff53a5f1d36f1, 0x5be0cd19137e2179, 0xa54ff53a5f1d36f1, 0x5be0cd19137e2179), 0, 0)
            == Four(0x949804b0483ead14, 0x75e6432fc4661b06, 0xa99463cb37905929, 0xa25ef57d7da312ee)
    ensures Quarter(Four(0xf0c9aa0f86491dea, 0xed49c30cd311d50e, 0xb2752dadd66bd8f9, 0xa25ef57d7da312ee), 0, 0)
            == Four(0x86b7c1568029bb79, 0xa447c850aa694a7e, 0xfa87b01273fa6dbe, 0x2318a24e2140fc64)
    ensures Quarter(Four(0x63b7dedf4a4e5ad3, 0xa056671704b00d71, 0xa99463cb37905929, 0x7772fc2886a76c5f), 0, 0)
            == Four(0xc12cbcc809ff59f3, 0xde080f1bb1c0f84b, 0x521a715c63e08d8a, 0xe02d0975b8d37a83)
    ensures Quarter(Four(0xbe50eb454e0a93d7, 0x75e6432fc4661b06, 0xee5e0f39647a9fff, 0x254ef880a19a8726), 0, 0)
            == Four(0xc6a5214cc0eaca8e, 0x595cb8a9a1aca66c, 0xbec3ae837eac4887, 0x1c7b754f08b7d193)
    ensures Quarter(Four(0x949804b0483ead14, 0xb7defc3d0277e11f, 0x7bee264bf3cdadfe, 0x789d43381c47f584), 0, 0)
            == Four(0x0c87cd524c14cc5d, 0x44ee6039bd86a9f7, 0x6267fc79df9d6ad1, 0x8f885a76b6e578fe)
  {
    hide TABLE, SIGMA, IV;
  }

  lemma RoundZero(v: Work, m: Work)
    requires AbcBlock(m) && Start(v)
    ensures Schedule(SIGMA[0]) && AfterZero(Round(v, m, SIGMA[0]))
  {
    TableIsSchedule(0);
    MetAt(m, SIGMA[0], 0);
    MixingsZero();
    hide Quarter, Round, SIGMA, TABLE, IV, Schedule, AbcBlock, ABC;
    RoundIs(v, m, SIGMA[0], Met(0),
            Four(0xf0c9aa0f86491dea, 0xb7defc3d0277e11f, 0xee5e0f39647a9fff, 0x7772fc2886a76c5f),
            Four(0x63b7dedf4a4e5ad3, 0xed49c30cd311d50e, 0x7bee264bf3cdadfe, 0x254ef880a19a8726),
            Four(0xbe50eb454e0a93d7, 0xa056671704b00d71, 0xb2752dadd66bd8f9, 0x789d43381c47f584),
            Four(0x949804b0483ead14, 0x75e6432fc4661b06, 0xa99463cb37905929, 0xa25ef57d7da312ee),
            Four(0x86b7c1568029bb79, 0xa447c850aa694a7e, 0xfa87b01273fa6dbe, 0x2318a24e2140fc64),
            Four(0xc12cbcc809ff59f3, 0xde080f1bb1c0f84b, 0x521a715c63e08d8a, 0xe02d0975b8d37a83),
            Four(0xc6a5214cc0eaca8e, 0x595cb8a9a1aca66c, 0xbec3ae837eac4887, 0x1c7b754f08b7d193),
            Four(0x0c87cd524c14cc5d, 0x44ee6039bd86a9f7, 0x6267fc79df9d6ad1, 0x8f885a76b6e578fe));
  }

  lemma MixingsOne()
    ensures Quarter(Four(0x86b7c1568029bb79, 0x44ee6039bd86a9f7, 0xbec3ae837eac4887, 0xe02d0975b8d37a83), 0, 0)
            == Four(0x7d7ebc91065eb487, 0xa2a2bb290a6fa0ac, 0xe089c6944d999f41, 0x9c62f81da3622dd5)
    ensures Quarter(Four(0xc12cbcc809ff59f3, 0xa447c850aa694a7e, 0x6267fc79df9d6ad1, 0x1c7b754f08b7d193), 0, 0)
            == Four(0x2985dbd3b522b163, 0x48daa2180cca574f, 0x607c07b706df2755, 0x4134955aae31cc2d)
    ensures Quarter(Four(0xc6a5214cc0eaca8e, 0xde080f1bb1c0f84b, 0xfa87b01273fa6dbe, 0x8f885a76b6e578fe), 0, 0)
            == Four(0x83dcc7c95110e507, 0x25804d5986d6e07f, 0x4defb1cc1d0e5211, 0x8f1947927dee7a35)
    ensures Quarter(Four(0x0c87cd524c14cc5d, 0x595cb8a9a1aca66c, 0x521a715c63e08d8a, 0x2318a24e2140fc64), 0, 0)
            == Four(0xd5f7d943ae7a12d4, 0x47dc958f84e67b9c, 0x53fd198002cb9dc5, 0x3561197657eee886)
    ensures Quarter(Four(0x7d7ebc91065eb487, 0x48daa2180cca574f, 0x4defb1cc1d0e5211, 0x3561197657eee886), 0, 0)
            == Four(0x53281e83806010f2, 0xca5425aec65a10a8, 0xe9e4ad0d0e1a0d48, 0x572d17effdd37358)
    ensures Quarter(Four(0x2985dbd3b522b163, 0x25804d5986d6e07f, 0x53fd198002cb9dc5, 0x9c62f81da3622dd5), ABC, 0)
            == Four(0x3594b403f81b4393, 0xc6a22e2ff0f7aa48, 0x85df9dc143c59a74, 0x92a3aaaa6d952b7f)
    ensures Quarter(Four(0x83dcc7c95110e507, 0x47dc958f84e67b9c, 0xe089c6944d999f41, 0x4134955aae31cc2d), 0, 0)
            == Four(0x8cd63c7462de0dff, 0xc6a56a51cb89c595, 0x224e6a3369224f96, 0xc5fdf71090fae853)
    ensures Quarter(Four(0xd5f7d943ae7a12d4, 0xa2a2bb290a6fa0ac, 0x607c07b706df2755, 0x8f1947927dee7a35), 0, 0)
            == Four(0x85f693f3da53f974, 0xbaabdbb2f386d9ae, 0x500e125e58a92923, 0x2a8a40f15a462dd0)
  {
    hide TABLE, SIGMA, IV;
  }

  lemma RoundOne(v: Work, m: Work)
    requires AbcBlock(m) && AfterZero(v)
    ensures Schedule(SIGMA[1]) && AfterOne(Round(v, m, SIGMA[1]))
  {
    TableIsSchedule(1);
    MetAt(m, SIGMA[1], 10);
    MixingsOne();
    hide Quarter, Round, SIGMA, TABLE, IV, Schedule, AbcBlock, ABC;
    RoundIs(v, m, SIGMA[1], Met(10),
            Four(0x7d7ebc91065eb487, 0xa2a2bb290a6fa0ac, 0xe089c6944d999f41, 0x9c62f81da3622dd5),
            Four(0x2985dbd3b522b163, 0x48daa2180cca574f, 0x607c07b706df2755, 0x4134955aae31cc2d),
            Four(0x83dcc7c95110e507, 0x25804d5986d6e07f, 0x4defb1cc1d0e5211, 0x8f1947927dee7a35),
            Four(0xd5f7d943ae7a12d4, 0x47dc958f84e67b9c, 0x53fd198002cb9dc5, 0x3561197657eee886),
            Four(0x53281e83806010f2, 0xca5425aec65a10a8, 0xe9e4ad0d0e1a0d48, 0x572d17effdd37358),
            Four(0x3594b403f81b4393, 0xc6a22e2ff0f7aa48, 0x85df9dc143c59a74, 0x92a3aaaa6d952b7f),
            Four(0x8cd63c7462de0dff, 0xc6a56a51cb89c595, 0x224e6a3369224f96, 0xc5fdf71090fae853),
            Four(0x85f693f3da53f974, 0xbaabdbb2f386d9ae, 0x500e125e58a92923, 0x2a8a40f15a462dd0));
  }

  lemma MixingsTwo()
    ensures Quarter(Four(0x53281e83806010f2, 0xbaabdbb2f386d9ae, 0x224e6a3369224f96, 0x92a3aaaa6d952b7f), 0, 0)
            == Four(0x224d9730ddde8c9b, 0x1161e9566cec8636, 0x1cc968515f81e2e0, 0xdc073c3e56ef42ae)
    ensures Quarter(Four(0x3594b403f81b4393, 0xca5425aec65a10a8, 0x500e125e58a92923, 0xc5fdf71090fae853), 0, ABC)
            == Four(0xe430476788c41ef0, 0x956fe864884ac584, 0xaef099868dce0a96, 0x3052cabffb0fb2d1)
    ensures Quarter(Four(0x8cd63c7462de0dff, 0xc6a22e2ff0f7aa48, 0xe9e4ad0d0e1a0d48, 0x2a8a40f15a462dd0), 0, 0)
            == Four(0x4f163fda2e4243bf, 0x4dfeb83fd06a086b, 0x5d62892a32598f4d, 0x69ea4685aa4d57b0)
    ensures Quarter(Four(0x85f693f3da53f974, 0xc6a56a51cb89c595, 0x85df9dc143c59a74, 0x572d17effdd37358), 0, 0)
            == Four(0x41dd8960f0de029d, 0x78c811fddf5c5824, 0xc92583e5a4ae6f86, 0xeb3719d34531eb68)
    ensures Quarter(Four(0x224d9730ddde8c9b, 0x956fe864884ac584, 0x5d62892a32598f4d, 0xeb3719d34531eb68), 0, 0)
            == Four(0x60ed96aa7ad41725, 0xb1dd230754d7bdee, 0xf1de8696bec11bf1, 0x716343f52fdd265e)
    ensures Quarter(Four(0xe430476788c41ef0, 0x4dfeb83fd06a086b, 0xc92583e5a4ae6f86, 0xdc073c3e56ef42ae), 0, 0)
            == Four(0xe46a743c71800b9d, 0x25a1422779e06d14, 0xa0ebd586a4a1d2c8, 0xc804ebab11c99fa9)
    ensures Quarter(Four(0x4f163fda2e4243bf, 0x78c811fddf5c5824, 0x1cc968515f81e2e0, 0x3052cabffb0fb2d1), 0, 0)
            == Four(0x1a04b543a01f156b, 0xe6823ae4c3ff58a5, 0xa1677e19f37fd5da, 0x8e0cec959c715793)
    ensures Quarter(Four(0x41dd8960f0de029d, 0x1161e9566cec8636, 0xaef099868dce0a96, 0x69ea4685aa4d57b0), 0, 0)
            == Four(0xa2f8716e775c4877, 0xda0a61bcde4267ea, 0x22bdce6976b08c51, 0x7c45557fae0d4d89)
  {
    hide TABLE, SIGMA, IV;
  }

  lemma RoundTwo(v: Work, m: Work)
    requires AbcBlock(m) && AfterOne(v)
    ensures Schedule(SIGMA[2]) && AfterTwo(Round(v, m, SIGMA[2]))
  {
    TableIsSchedule(2);
    MetAt(m, SIGMA[2], 3);
    MixingsTwo();
    hide Quarter, Round, SIGMA, TABLE, IV, Schedule, AbcBlock, ABC;
    RoundIs(v, m, SIGMA[2], Met(3),
            Four(0x224d9730ddde8c9b, 0x1161e9566cec8636, 0x1cc968515f81e2e0, 0xdc073c3e56ef42ae),
            Four(0xe430476788c41ef0, 0x956fe864884ac584, 0xaef099868dce0a96, 0x3052cabffb0fb2d1),
            Four(0x4f163fda2e4243bf, 0x4dfeb83fd06a086b, 0x5d62892a32598f4d, 0x69ea4685aa4d57b0),
            Four(0x41dd8960f0de029d, 0x78c811fddf5c5824, 0xc92583e5a4ae6f86, 0xeb3719d34531eb68),
            Four(0x60ed96aa7ad41725, 0xb1dd230754d7bdee, 0xf1de8696bec11bf1, 0x716343f52fdd265e),
            Four(0xe46a743c71800b9d, 0x25a1422779e06d14, 0xa0ebd586a4a1d2c8, 0xc804ebab11c99fa9),
            Four(0x1a04b543a01f156b, 0xe6823ae4c3ff58a5, 0xa1677e19f37fd5da, 0x8e0cec959c715793),
            Four(0xa2f8716e775c4877, 0xda0a61bcde4267ea, 0x22bdce6976b08c51, 0x7c45557fae0d4d89));
  }

  lemma MixingsThree()
    ensures Quarter(Four(0x60ed96aa7ad41725, 0xda0a61bcde4267ea, 0xa1677e19f37fd5da, 0xc804ebab11c99fa9), 0, 0)
            == Four(0x6b864497a655fb47, 0xc4b99c558f3684e9, 0xd2d2821a8aa43e4c, 0xe88b2359a43154a6)
    ensures Quarter(Four(0xe46a743c71800b9d, 0xb1dd230754d7bdee, 0x22bdce6976b08c51, 0x8e0cec959c715793), 0, 0)
            == Four(0xc1fd6110ffa75065, 0x065b83216e96ed93, 0xa898085d8e04f013, 0x2bb39bdbff08e7ec)
    ensures Quarter(Four(0x1a04b543a01f156b, 0x25a1422779e06d14, 0xf1de8696bec11bf1, 0x7c45557fae0d4d89), 0, 0)
            == Four(0x817908f78a142cfa, 0xf2d93929736e5b04, 0x38bf8d18c9a387f9, 0x8eee368bc701c9f4)
    ensures Quarter(Four(0xa2f8716e775c4877, 0xe6823ae4c3ff58a5, 0xa0ebd586a4a1d2c8, 0x716343f52fdd265e), 0, 0)
            == Four(0xce1577a72bc1ce7b, 0x2795f81cfb8f7633, 0xd750375d8da19646, 0x21ddda93f0e5d3d8)
    ensures Quarter(Four(0x6b864497a655fb47, 0x065b83216e96ed93, 0x38bf8d18c9a387f9, 0x21ddda93f0e5d3d8), 0, 0)
            == Four(0xbb2a77d3a8382351, 0x24192e49ebf54ea0, 0x5b44273e66b19d27, 0x3e7b5f234cd1f804)
    ensures Quarter(Four(0xc1fd6110ffa75065, 0xf2d93929736e5b04, 0xd750375d8da19646, 0xe88b2359a43154a6), 0, 0)
            == Four(0x45eb47971f23b103, 0x4f82c9401cb32d7a, 0xb6d5c9fca2579327, 0x086092cfb858437e)
    ensures Quarter(Four(0x817908f78a142cfa, 0x2795f81cfb8f7633, 0xd2d2821a8aa43e4c, 0x2bb39bdbff08e7ec), 0, ABC)
            == Four(0x98be297f6e45c684, 0x8ccd013726420dc4, 0xa9c9a8f17b1fc614, 0x5c4be2156dbeecf9)
    ensures Quarter(Four(0xce1577a72bc1ce7b, 0xc4b99c558f3684e9, 0xa898085d8e04f013, 0x8eee368bc701c9f4), 0, 0)
            == Four(0xa36077dee3370b89, 0x8a03c4cb7e97590a, 0x55908187977514a0, 0x2efede99ed4eff16)
  {
    hide TABLE, SIGMA, IV;
  }

  lemma RoundThree(v: Work, m: Work)
    requires AbcBlock(m) && AfterTwo(v)
    ensures Schedule(SIGMA[3]) && AfterThree(Round(v, m, SIGMA[3]))
  {
    TableIsSchedule(3);
    MetAt(m, SIGMA[3], 13);
    MixingsThree();
    hide Quarter, Round, SIGMA, TABLE, IV, Schedule, AbcBlock, ABC;
    RoundIs(v, m, SIGMA[3], Met(13),
            Four(0x6b864497a655fb47, 0xc4b99c558f3684e9, 0xd2d2821a8aa43e4c, 0xe88b2359a43154a6),
            Four(0xc1fd6110ffa75065, 0x065b83216e96ed93, 0xa898085d8e04f013, 0x2bb39bdbff08e7ec),
            Four(0x817908f78a142cfa, 0xf2d93929736e5b04, 0x38bf8d18c9a387f9, 0x8eee368bc701c9f4),
            Four(0xce1577a72bc1ce7b, 0x2795f81cfb8f7633, 0xd750375d8da19646, 0x21ddda93f0e5d3d8),
            Four(0xbb2a77d3a8382351, 0x24192e49ebf54ea0, 0x5b44273e66b19d27, 0x3e7b5f234cd1f804),
            Four(0x45eb47971f23b103, 0x4f82c9401cb32d7a, 0xb6d5c9fca2579327, 0x086092cfb858437e),
            Four(0x98be297f6e45c684, 0x8ccd013726420dc4, 0xa9c9a8f17b1fc614, 0x5c4be2156dbeecf9),
            Four(0xa36077dee3370b89, 0x8a03c4cb7e97590a, 0x55908187977514a0, 0x2efede99ed4eff16));
  }

  lemma MixingsFour()
    ensures Quarter(Four(0xbb2a77d3a8382351, 0x8a03c4cb7e97590a, 0xa9c9a8f17b1fc614, 0x086092cfb858437e), 0, ABC)
            == Four(0x3e5bab618a5fbc72, 0x475dcc427f3fcd87, 0x5a8388e35cb33b75, 0x1222a0cc9444c711)
    ensures Quarter(Four(0x45eb47971f23b103, 0x24192e49ebf54ea0, 0x55908187977514a0, 0x5c4be2156dbeecf9), 0, 0)
            == Four(0x9be6aa793ad3a7c9, 0xbb2d4d7552ba222d, 0xec74922286e7b930, 0x303dfd40b9230c9c)
    ensures Quarter(Four(0x98be297f6e45c684, 0x4f82c9401cb32d7a, 0x5b44273e66b19d27, 0x2efede99ed4eff16), 0, 0)
            == Four(0xc5252a4d03f65b2f, 0xcdcfc26e59d1d349, 0x3a03d6ba54158e95, 0x7709a29326a5c548)
    ensures Quarter(Four(0xa36077dee3370b89, 0x8ccd013726420dc4, 0xb6d5c9fca2579327, 0x3e7b5f234cd1f804), 0, 0)
            == Four(0x1fe21186bd238be3, 0x8bc33bc025ae3c8e, 0xaa550590a17d6cd1, 0xadd65a4af0cfb375)
    ensures Quarter(Four(0x3e5bab618a5fbc72, 0xbb2d4d7552ba222d, 0x3a03d6ba54158e95, 0xadd65a4af0cfb375), 0, 0)
            == Four(0xc79c15b3d423b099, 0x6fe66467af88c0a9, 0x79e02eef20cdb1ae, 0x1205ea4a7859807d)
    ensures Quarter(Four(0x9be6aa793ad3a7c9, 0xcdcfc26e59d1d349, 0xaa550590a17d6cd1, 0x1222a0cc9444c711), 0, 0)
            == Four(0x2da2224e8da97556, 0x4eb0b76284c7aafb, 0x64b3eed7bb602f39, 0xb97d2d439e4df63d)
    ensures Quarter(Four(0xc5252a4d03f65b2f, 0x8bc33bc025ae3c8e, 0x5a8388e35cb33b75, 0x303dfd40b9230c9c), 0, 0)
            == Four(0x77d2b26df1c45c55, 0x299c8e725d954697, 0xb2240b59e6d567d3, 0xc718e755294c9111)
    ensures Quarter(Four(0x1fe21186bd238be3, 0x475dcc427f3fcd87, 0xec74922286e7b930, 0x7709a29326a5c548), 0, 0)
            == Four(0x8934eb09a3456052, 0x0f6d9eeed157da2a, 0x2643c2370e49ebfd, 0x1f0893f2772bb373)
  {
    hide TABLE, SIGMA, IV;
  }

  lemma RoundFour(v: Work, m: Work)
    requires AbcBlock(m) && AfterThree(v)
    ensures Schedule(SIGMA[4]) && AfterFour(Round(v, m, SIGMA[4]))
  {
    TableIsSchedule(4);
    MetAt(m, SIGMA[4], 1);
    MixingsFour();
    hide Quarter, Round, SIGMA, TABLE, IV, Schedule, AbcBlock, ABC;
    RoundIs(v, m, SIGMA[4], Met(1),
            Four(0x3e5bab618a5fbc72, 0x475dcc427f3fcd87, 0x5a8388e35cb33b75, 0x1222a0cc9444c711),
            Four(0x9be6aa793ad3a7c9, 0xbb2d4d7552ba222d, 0xec74922286e7b930, 0x303dfd40b9230c9c),
            Four(0xc5252a4d03f65b2f, 0xcdcfc26e59d1d349, 0x3a03d6ba54158e95, 0x7709a29326a5c548),
            Four(0x1fe21186bd238be3, 0x8bc33bc025ae3c8e, 0xaa550590a17d6cd1, 0xadd65a4af0cfb375),
            Four(0xc79c15b3d423b099, 0x6fe66467af88c0a9, 0x79e02eef20cdb1ae, 0x1205ea4a7859807d),
            Four(0x2da2224e8da97556, 0x4eb0b76284c7aafb, 0x64b3eed7bb602f39, 0xb97d2d439e4df63d),
            Four(0x77d2b26df1c45c55, 0x299c8e725d954697, 0xb2240b59e6d567d3, 0xc718e755294c9111),
            Four(0x8934eb09a3456052, 0x0f6d9eeed157da2a, 0x2643c2370e49ebfd, 0x1f0893f2772bb373));
  }

  lemma MixingsFive()
    ensures Quarter(Four(0xc79c15b3d423b099, 0x0f6d9eeed157da2a, 0xb2240b59e6d567d3, 0xb97d2d439e4df63d), 0, 0)
            == Four(0xf4e55384dc924147, 0xb7b58d9367a4043d, 0xc601582b84c4b49a, 0xd8a6cfd32f7ab2e6)
    ensures Quarter(Four(0x2da2224e8da97556, 0x6fe66467af88c0a9, 0x2643c2370e49ebfd, 0xc718e755294c9111), 0, 0)
            == Four(0xf015d00b613578c6, 0x02ca058bf3799684, 0x53e84b90ddbf8985, 0x1925e46b74e53ba5)
    ensures Quarter(Four(0x77d2b26df1c45c55, 0x4eb0b76284c7aafb, 0x79e02eef20cdb1ae, 0x1f0893f2772bb373), ABC, 0)
            == Four(0x648495058cae3d2f, 0xb9668b8ebf3fa717, 0x42b26ef24a2100f5, 0xc70d65404fc75525)
    ensures Quarter(Four(0x8934eb09a3456052, 0x299c8e725d954697, 0x64b3eed7bb602f39, 0x1205ea4a7859807d), 0, 0)
            == Four(0x54567270ac75c4ea, 0x292f756a3507a223, 0x35134241b118cf10, 0x57dc2cd554e40ca1)
    ensures Quarter(Four(0xf4e55384dc924147, 0x02ca058bf3799684, 0x42b26ef24a2100f5, 0x57dc2cd554e40ca1), 0, 0)
            == Four(0xe58f97d6385baee4, 0x9e472af0be3db3f6, 0xa2c3abbd37510ee2, 0xdb2161604cbc9828)
    ensures Quarter(Four(0xf015d00b613578c6, 0xb9668b8ebf3fa717, 0x35134241b118cf10, 0xd8a6cfd32f7ab2e6), 0, 0)
            == Four(0x7640aa9764da137a, 0x0f244c62ddf71788, 0xcb5668cc2a9f7859, 0x8733794f07ac1500)
    ensures Quarter(Four(0x648495058cae3d2f, 0x292f756a3507a223, 0xc601582b84c4b49a, 0x1925e46b74e53ba5), 0, 0)
            == Four(0xdeb4c7c23efe287e, 0x219828aa83880842, 0x41cca9073c8c4d0d, 0xc67a6be42335aa6f)
    ensures Quarter(Four(0x54567270ac75c4ea, 0xb7b58d9367a4043d, 0x53e84b90ddbf8985, 0xc70d65404fc75525), 0, 0)
            == Four(0x70f6f41c8783c9f6, 0x7127cd48c76a7708, 0x5c7912bc10df3b4b, 0xacb22b28681e4c82)
  {
    hide TABLE, SIGMA, IV;
  }

  lemma RoundFive(v: Work, m: Work)
    requires AbcBlock(m) && AfterFour(v)
    ensures Schedule(SIGMA[5]) && AfterFive(Round(v, m, SIGMA[5]))
  {
    TableIsSchedule(5);
    MetAt(m, SIGMA[5], 4);
    MixingsFive();
    hide Quarter, Round, SIGMA, TABLE, IV, Schedule, AbcBlock, ABC;
    RoundIs(v, m, SIGMA[5], Met(4),
            Four(0xf4e55384dc924147, 0xb7b58d9367a4043d, 0xc601582b84c4b49a, 0xd8a6cfd32f7ab2e6),
            Four(0xf015d00b613578c6, 0x02ca058bf3799684, 0x53e84b90ddbf8985, 0x1925e46b74e53ba5),
            Four(0x648495058cae3d2f, 0xb9668b8ebf3fa717, 0x42b26ef24a2100f5, 0xc70d65404fc75525),
            Four(0x54567270ac75c4ea, 0x292f756a3507a223, 0x35134241b118cf10, 0x57dc2cd554e40ca1),
            Four(0xe58f97d6385baee4, 0x9e472af0be3db3f6, 0xa2c3abbd37510ee2, 0xdb2161604cbc9828),
            Four(0x7640aa9764da137a, 0x0f244c62ddf71788, 0xcb5668cc2a9f7859, 0x8733794f07ac1500),
            Four(0xdeb4c7c23efe287e, 0x219828aa83880842, 0x41cca9073c8c4d0d, 0xc67a6be42335aa6f),
            Four(0x70f6f41c8783c9f6, 0x7127cd48c76a7708, 0x5c7912bc10df3b4b, 0xacb22b28681e4c82));
  }

  lemma MixingsSix()
    ensures Quarter(Four(0xe58f97d6385baee4, 0x7127cd48c76a7708, 0x41cca9073c8c4d0d, 0x8733794f07ac1500), 0, 0)
            == Four(0xd0d5bb6a10dae2b5, 0x860aa9f111072cea, 0x391b02b399972abc, 0xfee428bf8b86c15e)
    ensures Quarter(Four(0x7640aa9764da137a, 0x9e472af0be3db3f6, 0x5c7912bc10df3b4b, 0xc67a6be42335aa6f), 0, 0)
            == Four(0xf5d2174aff6cf2cd, 0x90ee681d04ce182a, 0xa93d75cc5e322748, 0x4ca1f5f07a552d91)
    ensures Quarter(Four(0xdeb4c7c23efe287e, 0x0f244c62ddf71788, 0xa2c3abbd37510ee2, 0xacb22b28681e4c82), 0, 0)
            == Four(0x39337b3da7e963ab, 0x7e1ec202f5042fa8, 0x74550619f0763471, 0x5ca64dd877b9e682)
    ensures Quarter(Four(0x70f6f41c8783c9f6, 0x219828aa83880842, 0xcb5668cc2a9f7859, 0xdb2161604cbc9828), 0, 0)
            == Four(0x588d5ef9a0a6492f, 0x04d72048395b53ff, 0x4795d2168937df08, 0x34881f3a14e9e908)
    ensures Quarter(Four(0xd0d5bb6a10dae2b5, 0x90ee681d04ce182a, 0x74550619f0763471, 0x34881f3a14e9e908), ABC, 0)
            == Four(0x6e2d286eeadedc81, 0xb63c479a6a769f02, 0x5777272ae1e930c0, 0xe03c6cc89c26bf92)
    ensures Quarter(Four(0xf5d2174aff6cf2cd, 0x7e1ec202f5042fa8, 0x4795d2168937df08, 0xfee428bf8b86c15e), 0, 0)
            == Four(0xbcf02c0787e86358, 0x258e55e0ec1f362a, 0x5a387849e578dbf6, 0x92aac307cf2c0afc)
    ensures Quarter(Four(0x39337b3da7e963ab, 0x04d72048395b53ff, 0x391b02b399972abc, 0x4ca1f5f07a552d91), 0, 0)
            == Four(0x57d56a56dd015edf, 0x3a3b4ec60e19dfdc, 0x04d769b3fcb048db, 0x30aaccc4f06dafaa)
    ensures Quarter(Four(0x588d5ef9a0a6492f, 0x860aa9f111072cea, 0xa93d75cc5e322748, 0x5ca64dd877b9e682), 0, 0)
            == Four(0x55d899d40a5d0d0a, 0x819415b56220c459, 0xb78a9a33e9bff4dd, 0x483893cc094f8863)
  {
    hide TABLE, SIGMA, IV;
  }

  lemma RoundSix(v: Work, m: Work)
    requires AbcBlock(m) && AfterFive(v)
    ensures Schedule(SIGMA[6]) && AfterSix(Round(v, m, SIGMA[6]))
  {
    TableIsSchedule(6);
    MetAt(m, SIGMA[6], 8);
    MixingsSix();
    hide Quarter, Round, SIGMA, TABLE, IV, Schedule, AbcBlock, ABC;
    RoundIs(v, m, SIGMA[6], Met(8),
            Four(0xd0d5bb6a10dae2b5, 0x860aa9f111072cea, 0x391b02b399972abc, 0xfee428bf8b86c15e),
            Four(0xf5d2174aff6cf2cd, 0x90ee681d04ce182a, 0xa93d75cc5e322748, 0x4ca1f5f07a552d91),
            Four(0x39337b3da7e963ab, 0x7e1ec202f5042fa8, 0x74550619f0763471, 0x5ca64dd877b9e682),
            Four(0x588d5ef9a0a6492f, 0x04d72048395b53ff, 0x4795d2168937df08, 0x34881f3a14e9e908),
            Four(0x6e2d286eeadedc81, 0xb63c479a6a769f02, 0x5777272ae1e930c0, 0xe03c6cc89c26bf92),
            Four(0xbcf02c0787e86358, 0x258e55e0ec1f362a, 0x5a387849e578dbf6, 0x92aac307cf2c0afc),
            Four(0x57d56a56dd015edf, 0x3a3b4ec60e19dfdc, 0x04d769b3fcb048db, 0x30aaccc4f06dafaa),
            Four(0x55d899d40a5d0d0a, 0x819415b56220c459, 0xb78a9a33e9bff4dd, 0x483893cc094f8863));
  }

  lemma MixingsSeven()
    ensures Quarter(Four(0x6e2d286eeadedc81, 0x819415b56220c459, 0x04d769b3fcb048db, 0x92aac307cf2c0afc), 0, 0)
            == Four(0x2c42e52d8c060ff2, 0x8ffac8c5ec5cb0e6, 0x7b7cc36bc928376b, 0xf2d1af914f0bf16d)
    ensures Quarter(Four(0xbcf02c0787e86358, 0xb63c479a6a769f02, 0xb78a9a33e9bff4dd, 0x30aaccc4f06dafaa), 0, 0)
            == Four(0xa357b3b1736ec0a1, 0x1355530d9510b6da, 0x3981e9894b87e52a, 0x7fc4a1651e4130e8)
    ensures Quarter(Four(0x57d56a56dd015edf, 0x258e55e0ec1f362a, 0x5777272ae1e930c0, 0x483893cc094f8863), 0, 0)
            == Four(0xd916516a31320b04, 0x56af9e7816abf9be, 0x70e55e0e63448924, 0x58ff19794c000469)
    ensures Quarter(Four(0x55d899d40a5d0d0a, 0x3a3b4ec60e19dfdc, 0x5a387849e578dbf6, 0xe03c6cc89c26bf92), 0, 0)
            == Four(0x41d37d7ecbfc6541, 0x1c460b4a606cc880, 0xbf9c914183b31c1b, 0xe113c5832e0abbd3)
    ensures Quarter(Four(0x2c42e52d8c060ff2, 0x1355530d9510b6da, 0x70e55e0e63448924, 0xe113c5832e0abbd3), 0, ABC)
            == Four(0xffc83ece76024d01, 0xe1179523a2541963, 0x30bbcc0285a22f65, 0xb0b9f0d443d1a889)
    ensures Quarter(Four(0xa357b3b1736ec0a1, 0x56af9e7816abf9be, 0xbf9c914183b31c1b, 0xf2d1af914f0bf16d), 0, 0)
            == Four(0x1be7bffb8c5cc5f9, 0x3a1fad7106232b8f, 0xbcefbb6a81539e5d, 0x3841def6f4c9848a)
    ensures Quarter(Four(0xd916516a31320b04, 0x1c460b4a606cc880, 0x7b7cc36bc928376b, 0x7fc4a1651e4130e8), 0, 0)
            == Four(0xa35a18cbac4c65b7, 0x1c7ede92ab8b9c46, 0xa3c2d35e4f685c10, 0x98662c85fba726d4)
    ensures Quarter(Four(0x41d37d7ecbfc6541, 0x8ffac8c5ec5cb0e6, 0x3981e9894b87e52a, 0x58ff19794c000469), 0, 0)
            == Four(0xb7c2c7e6d88c285f, 0x81937da314a50838, 0xa53d3f73aa619624, 0x7762439bd5a851bd)
  {
    hide TABLE, SIGMA, IV;
  }

  lemma RoundSeven(v: Work, m: Work)
    requires AbcBlock(m) && AfterSix(v)
    ensures Schedule(SIGMA[7]) && AfterSeven(Round(v, m, SIGMA[7]))
  {
    TableIsSchedule(7);
    MetAt(m, SIGMA[7], 9);
    MixingsSeven();
    hide Quarter, Round, SIGMA, TABLE, IV, Schedule, AbcBlock, ABC;
    RoundIs(v, m, SIGMA[7], Met(9),
            Four(0x2c42e52d8c060ff2, 0x8ffac8c5ec5cb0e6, 0x7b7cc36bc928376b, 0xf2d1af914f0bf16d),
            Four(0xa357b3b1736ec0a1, 0x1355530d9510b6da, 0x3981e9894b87e52a, 0x7fc4a1651e4130e8),
            Four(0xd916516a31320b04, 0x56af9e7816abf9be, 0x70e55e0e63448924, 0x58ff19794c000469),
            Four(0x41d37d7ecbfc6541, 0x1c460b4a606cc880, 0xbf9c914183b31c1b, 0xe113c5832e0abbd3),
            Four(0xffc83ece76024d01, 0xe1179523a2541963, 0x30bbcc0285a22f65, 0xb0b9f0d443d1a889),
            Four(0x1be7bffb8c5cc5f9, 0x3a1fad7106232b8f, 0xbcefbb6a81539e5d, 0x3841def6f4c9848a),
            Four(0xa35a18cbac4c65b7, 0x1c7ede92ab8b9c46, 0xa3c2d35e4f685c10, 0x98662c85fba726d4),
            Four(0xb7c2c7e6d88c285f, 0x81937da314a50838, 0xa53d3f73aa619624, 0x7762439bd5a851bd));
  }

  lemma MixingsEight()
    ensures Quarter(Four(0xffc83ece76024d01, 0x81937da314a50838, 0xa3c2d35e4f685c10, 0x3841def6f4c9848a), 0, 0)
            == Four(0xa9126c152d800655, 0x4165a65ac9e3c45b, 0x87047c8ec6295331, 0x64d2d77cbda6949a)
    ensures Quarter(Four(0x1be7bffb8c5cc5f9, 0xe1179523a2541963, 0xa53d3f73aa619624, 0x98662c85fba726d4), 0, 0)
            == Four(0xac1632ba715ebf08, 0xdfe2d8cd3101f453, 0x40e7b1fdda2d2585, 0xc6927901cb3215c7)
    ensures Quarter(Four(0xa35a18cbac4c65b7, 0x3a1fad7106232b8f, 0x30bbcc0285a22f65, 0x7762439bd5a851bd), 0, 0)
            == Four(0x7c1849df4e91206f, 0x41aa56fe49862d7f, 0x3e4ba8ddb8e29996, 0xa5c81bdf8924e48a)
    ensures Quarter(Four(0xb7c2c7e6d88c285f, 0x1c7ede92ab8b9c46, 0xbcefbb6a81539e5d, 0xb0b9f0d443d1a889), ABC, 0)
            == Four(0x94aaf312690f9253, 0x13e3a2c50cfad099, 0x49989dfa62e90301, 0xc4fe53007c9d0df7)
    ensures Quarter(Four(0xa9126c152d800655, 0xdfe2d8cd3101f453, 0x3e4ba8ddb8e29996, 0xc4fe53007c9d0df7), 0, 0)
            == Four(0x753a70a1e8faeadd, 0x63c5b9b80d294cb9, 0x5da7f7638cec5669, 0xfd3f572687fea4f1)
    ensures Quarter(Four(0xac1632ba715ebf08, 0x41aa56fe49862d7f, 0x49989dfa62e90301, 0x64d2d77cbda6949a), 0, 0)
            == Four(0x6b0d43ca2c25d629, 0x490870ecad27debd, 0xd9c8826727d306fc, 0x88ed6c4f3bd7a537)
    ensures Quarter(Four(0x7c1849df4e91206f, 0x13e3a2c50cfad099, 0x87047c8ec6295331, 0xc6927901cb3215c7), 0, 0)
            == Four(0xf8343ba8b94f8c0b, 0xb2a90ddf667287fe, 0x316cc9ebeefad8fc, 0x19ae688ddf67f026)
    ensures Quarter(Four(0x94aaf312690f9253, 0x4165a65ac9e3c45b, 0x40e7b1fdda2d2585, 0xa5c81bdf8924e48a), 0, 0)
            == Four(0xbc7d062b0db5cf35, 0x58540ee1b1aebc47, 0x4a466bcd021526a4, 0x4d8707aab40f7e6d)
  {
    hide TABLE, SIGMA, IV;
  }

  lemma RoundEight(v: Work, m: Work)
    requires AbcBlock(m) && AfterSeven(v)
    ensures Schedule(SIGMA[8]) && AfterEight(Round(v, m, SIGMA[8]))
  {
    TableIsSchedule(8);
    MetAt(m, SIGMA[8], 6);
    MixingsEight();
    hide Quarter, Round, SIGMA, TABLE, IV, Schedule, AbcBlock, ABC;
    RoundIs(v, m, SIGMA[8], Met(6),
            Four(0xa9126c152d800655, 0x4165a65ac9e3c45b, 0x87047c8ec6295331, 0x64d2d77cbda6949a),
            Four(0xac1632ba715ebf08, 0xdfe2d8cd3101f453, 0x40e7b1fdda2d2585, 0xc6927901cb3215c7),
            Four(0x7c1849df4e91206f, 0x41aa56fe49862d7f, 0x3e4ba8ddb8e29996, 0xa5c81bdf8924e48a),
            Four(0x94aaf312690f9253, 0x13e3a2c50cfad099, 0x49989dfa62e90301, 0xc4fe53007c9d0df7),
            Four(0x753a70a1e8faeadd, 0x63c5b9b80d294cb9, 0x5da7f7638cec5669, 0xfd3f572687fea4f1),
            Four(0x6b0d43ca2c25d629, 0x490870ecad27debd, 0xd9c8826727d306fc, 0x88ed6c4f3bd7a537),
            Four(0xf8343ba8b94f8c0b, 0xb2a90ddf667287fe, 0x316cc9ebeefad8fc, 0x19ae688ddf67f026),
            Four(0xbc7d062b0db5cf35, 0x58540ee1b1aebc47, 0x4a466bcd021526a4, 0x4d8707aab40f7e6d));
  }

  lemma MixingsNine()
    ensures Quarter(Four(0x753a70a1e8faeadd, 0x58540ee1b1aebc47, 0x316cc9ebeefad8fc, 0x88ed6c4f3bd7a537), 0, 0)
            == Four(0xc0df0f0e596ec5a9, 0xb4014455ff7c2ca0, 0xa9502da0417b08d5, 0xd66561a10d1d1c0d)
    ensures Quarter(Four(0x6b0d43ca2c25d629, 0x63c5b9b80d294cb9, 0x4a466bcd021526a4, 0x19ae688ddf67f026), 0, 0)
            == Four(0x87ca07d5e3d64cb6, 0x65bf544e084bb313, 0x0a28a074aea2f05d, 0xd9b961e2d51134aa)
    ensures Quarter(Four(0xf8343ba8b94f8c0b, 0x490870ecad27debd, 0x5da7f7638cec5669, 0x4d8707aab40f7e6d), 0, 0)
            == Four(0xd11bc20e8ef44efc, 0x3478342ab05ecf87, 0x15e30f6c705383f7, 0xe5c30363d6ab824f)
    ensures Quarter(Four(0xbc7d062b0db5cf35, 0xb2a90ddf667287fe, 0xd9c8826727d306fc, 0xfd3f572687fea4f1), 0, 0)
            == Four(0x0df3ea89aaa44e12, 0x88274463ca98e874, 0xdade744ed33782e5, 0x0d3efe25194b38bd)
    ensures Quarter(Four(0xc0df0f0e596ec5a9, 0x65bf544e084bb313, 0x15e30f6c705383f7, 0x0d3efe25194b38bd), 0, 0)
            == Four(0xe630c747ccd59c4f, 0x5f311b88904056ec, 0x900aee2f233b08e5, 0x01369ec18746e775)
    ensures Quarter(Four(0x87ca07d5e3d64cb6, 0x3478342ab05ecf87, 0xdade744ed33782e5, 0xd66561a10d1d1c0d), 0, 0)
            == Four(0xbc713d41127571ca, 0x40bd313009201aab, 0xa07199d87ad058d8, 0x2c6b25593d717852)
    ensures Quarter(Four(0xd11bc20e8ef44efc, 0x88274463ca98e874, 0xa9502da0417b08d5, 0xd9b961e2d51134aa), 0, 0)
            == Four(0x46db183025025078, 0x0099d4f82a2a1eab, 0x6dd4fbc1de60165d, 0x37e8ca471beaa5f8)
    ensures Quarter(Four(0x0df3ea89aaa44e12, 0xb4014455ff7c2ca0, 0x0a28a074aea2f05d, 0xe5c30363d6ab824f), 0, ABC)
            == Four(0x6727e81260610140, 0x2d04185eac2a8cba, 0xb3b0b51de3c86270, 0x2cfc1bac10ef4457)
  {
    hide TABLE, SIGMA, IV;
  }

  lemma RoundNine(v: Work, m: Work)
    requires AbcBlock(m) && AfterEight(v)
    ensures Schedule(SIGMA[9]) && AfterNine(Round(v, m, SIGMA[9]))
  {
    TableIsSchedule(9);
    MetAt(m, SIGMA[9], 15);
    MixingsNine();
    hide Quarter, Round, SIGMA, TABLE, IV, Schedule, AbcBlock, ABC;
    RoundIs(v, m, SIGMA[9], Met(15),
            Four(0xc0df0f0e596ec5a9, 0xb4014455ff7c2ca0, 0xa9502da0417b08d5, 0xd66561a10d1d1c0d),
            Four(0x87ca07d5e3d64cb6, 0x65bf544e084bb313, 0x0a28a074aea2f05d, 0xd9b961e2d51134aa),
            Four(0xd11bc20e8ef44efc, 0x3478342ab05ecf87, 0x15e30f6c705383f7, 0xe5c30363d6ab824f),
            Four(0x0df3ea89aaa44e12, 0x88274463ca98e874, 0xdade744ed33782e5, 0x0d3efe25194b38bd),
            Four(0xe630c747ccd59c4f, 0x5f311b88904056ec, 0x900aee2f233b08e5, 0x01369ec18746e775),
            Four(0xbc713d41127571ca, 0x40bd313009201aab, 0xa07199d87ad058d8, 0x2c6b25593d717852),
            Four(0x46db183025025078, 0x0099d4f82a2a1eab, 0x6dd4fbc1de60165d, 0x37e8ca471beaa5f8),
            Four(0x6727e81260610140, 0x2d04185eac2a8cba, 0xb3b0b51de3c86270, 0x2cfc1bac10ef4457));
  }

  lemma MixingsTen()
    ensures Quarter(Four(0xe630c747ccd59c4f, 0x2d04185eac2a8cba, 0x6dd4fbc1de60165d, 0x2c6b25593d717852), ABC, 0)
            == Four(0xfdd2c6435d5a301b, 0x2ca29c4d619bafa1, 0x7ccca8ba533b7361, 0xcae4b9c0357b6205)
    ensures Quarter(Four(0xbc713d41127571ca, 0x5f311b88904056ec, 0xb3b0b51de3c86270, 0x37e8ca471beaa5f8), 0, 0)
            == Four(0x6e446afbc3efad36, 0xfcd5d76a6de20047, 0xacc8f98717c8e4a3, 0x3fb8d71b07b5efa5)
    ensures Quarter(Four(0x46db183025025078, 0x40bd313009201aab, 0x900aee2f233b08e5, 0x2cfc1bac10ef4457), 0, 0)
            == Four(0x46d963ee934efeea, 0x8b7f1e6cfc2a0039, 0x7afe95b81b3993db, 0xac2678144c9a382a)
    ensures Quarter(Four(0x6727e81260610140, 0x0099d4f82a2a1eab, 0xa07199d87ad058d8, 0x01369ec18746e775), 0, 0)
            == Four(0x5523c5b930d1aeb6, 0xadbdc7977150b805, 0x3bbceb651eeed2c9, 0x8d7d58ee3d275626)
    ensures Quarter(Four(0xfdd2c6435d5a301b, 0xfcd5d76a6de20047, 0x7afe95b81b3993db, 0x8d7d58ee3d275626), 0, 0)
            == Four(0xe801f73b9768c760, 0x3cc88735d1475e4b, 0x733d1a17248f39db, 0x02231e1a917fe0bd)
    ensures Quarter(Four(0x6e446afbc3efad36, 0x8b7f1e6cfc2a0039, 0x3bbceb651eeed2c9, 0xcae4b9c0357b6205), 0, 0)
            == Four(0x35c6d22320be511d, 0x5dac67921ff76949, 0x92d57b736f5f170a, 0x61b5c0a41d491399)
    ensures Quarter(Four(0x46d963ee934efeea, 0xadbdc7977150b805, 0x7ccca8ba533b7361, 0x3fb8d71b07b5efa5), 0, 0)
            == Four(0x306f27584f65495e, 0x1cdb9d31ad70cc4e, 0x35ba354a9c7df448, 0xb5c333457e12844a)
    ensures Quarter(Four(0x5523c5b930d1aeb6, 0x2ca29c4d619bafa1, 0xacc8f98717c8e4a3, 0xac2678144c9a382a), 0, 0)
            == Four(0xb51776adf569a77b, 0xf4f1be86690b3c34, 0x4929cbe45679d73e, 0xbd696be010d0d889)
  {
    hide TABLE, SIGMA, IV;
  }

  lemma RoundTen(v: Work, m: Work)
    requires AbcBlock(m) && AfterNine(v)
    ensures Schedule(SIGMA[0]) && AfterTen(Round(v, m, SIGMA[0]))
  {
    TableIsSchedule(0);
    MetAt(m, SIGMA[0], 0);
    MixingsTen();
    hide Quarter, Round, SIGMA, TABLE, IV, Schedule, AbcBlock, ABC;
    RoundIs(v, m, SIGMA[0], Met(0),
            Four(0xfdd2c6435d5a301b, 0x2ca29c4d619bafa1, 0x7ccca8ba533b7361, 0xcae4b9c0357b6205),
            Four(0x6e446afbc3efad36, 0xfcd5d76a6de20047, 0xacc8f98717c8e4a3, 0x3fb8d71b07b5efa5),
            Four(0x46d963ee934efeea, 0x8b7f1e6cfc2a0039, 0x7afe95b81b3993db, 0xac2678144c9a382a),
            Four(0x5523c5b930d1aeb6, 0xadbdc7977150b805, 0x3bbceb651eeed2c9, 0x8d7d58ee3d275626),
            Four(0xe801f73b9768c760, 0x3cc88735d1475e4b, 0x733d1a17248f39db, 0x02231e1a917fe0bd),
            Four(0x35c6d22320be511d, 0x5dac67921ff76949, 0x92d57b736f5f170a, 0x61b5c0a41d491399),
            Four(0x306f27584f65495e, 0x1cdb9d31ad70cc4e, 0x35ba354a9c7df448, 0xb5c333457e12844a),
            Four(0xb51776adf569a77b, 0xf4f1be86690b3c34, 0x4929cbe45679d73e, 0xbd696be010d0d889));
  }

  lemma MixingsEleven()
    ensures Quarter(Four(0xe801f73b9768c760, 0xf4f1be86690b3c34, 0x35ba354a9c7df448, 0x61b5c0a41d491399), 0, 0)
            == Four(0xac495068076fe1c4, 0x5198d8d539a3fbce, 0xe799f6cc9a2a23d7, 0x94a2b1744065ba29)
    ensures Quarter(Four(0x35c6d22320be511d, 0x3cc88735d1475e4b, 0x4929cbe45679d73e, 0xb5c333457e12844a), 0, 0)
            == Four(0xf3ae6a427a75e234, 0xb8eacc53aead98b1, 0x5d6a76c05f26fe94, 0x88297fb94160bd39)
    ensures Quarter(Four(0x306f27584f65495e, 0x5dac67921ff76949, 0x733d1a17248f39db, 0xbd696be010d0d889), 0, 0)
            == Four(0x83933b99d54089ee, 0x55b2599798b3a4a1, 0x5fae8064a9ba0517, 0x6ce4fc1f51b7e632)
    ensures Quarter(Four(0xb51776adf569a77b, 0x1cdb9d31ad70cc4e, 0x92d57b736f5f170a, 0x02231e1a917fe0bd), 0, 0)
            == Four(0x31db95ba436e4db7, 0xb20b2179d2dcd8c6, 0x06ed116649fdb58d, 0x4072027e06ce90be)
    ensures Quarter(Four(0xac495068076fe1c4, 0xb8eacc53aead98b1, 0x5fae8064a9ba0517, 0x4072027e06ce90be), 0, 0)
            == Four(0x12ef8a641ec4f6d6, 0xaa5ac1888e10467e, 0xf8960d6c2faf5f5e, 0xe813a23c60af3b82)
    ensures Quarter(Four(0xf3ae6a427a75e234, 0x55b2599798b3a4a1, 0x06ed116649fdb58d, 0x94a2b1744065ba29), ABC, 0)
            == Four(0xbced5de977c9faf5, 0x217d930aa51787f3, 0xe332538a36b6d246, 0x885bef040ef6aa0b)
    ensures Quarter(Four(0x83933b99d54089ee, 0xb20b2179d2dcd8c6, 0xe799f6cc9a2a23d7, 0x88297fb94160bd39), 0, 0)
            == Four(0x733ca476c5148639, 0x906a6ff19e573942, 0x75ab709bd3dcbf24, 0xa4939a417bfb78a3)
    ensures Quarter(Four(0x31db95ba436e4db7, 0x5198d8d539a3fbce, 0x5d6a76c05f26fe94, 0x6ce4fc1f51b7e632), 0, 0)
            == Four(0x97df596b0610f6fc, 0xf42c16519ad5afa7, 0xee7ce1f345947aa4, 0x646cbb7af6dce980)
  {
    hide TABLE, SIGMA, IV;
  }

  lemma RoundEleven(v: Work, m: Work)
    requires AbcBlock(m) && AfterTen(v)
    ensures Schedule(SIGMA[1]) && AfterEleven(Round(v, m, SIGMA[1]))
  {
    TableIsSchedule(1);
    MetAt(m, SIGMA[1], 10);
    MixingsEleven();
    hide Quarter, Round, SIGMA, TABLE, IV, Schedule, AbcBlock, ABC;
    RoundIs(v, m, SIGMA[1], Met(10),
            Four(0xac495068076fe1c4, 0x5198d8d539a3fbce, 0xe799f6cc9a2a23d7, 0x94a2b1744065ba29),
            Four(0xf3ae6a427a75e234, 0xb8eacc53aead98b1, 0x5d6a76c05f26fe94, 0x88297fb94160bd39),
            Four(0x83933b99d54089ee, 0x55b2599798b3a4a1, 0x5fae8064a9ba0517, 0x6ce4fc1f51b7e632),
            Four(0x31db95ba436e4db7, 0xb20b2179d2dcd8c6, 0x06ed116649fdb58d, 0x4072027e06ce90be),
            Four(0x12ef8a641ec4f6d6, 0xaa5ac1888e10467e, 0xf8960d6c2faf5f5e, 0xe813a23c60af3b82),
            Four(0xbced5de977c9faf5, 0x217d930aa51787f3, 0xe332538a36b6d246, 0x885bef040ef6aa0b),
            Four(0x733ca476c5148639, 0x906a6ff19e573942, 0x75ab709bd3dcbf24, 0xa4939a417bfb78a3),
            Four(0x97df596b0610f6fc, 0xf42c16519ad5afa7, 0xee7ce1f345947aa4, 0x646cbb7af6dce980));
  }

  // ------------------------------------------------------------------
  // The whole hash
  // ------------------------------------------------------------------

  lemma {:induction false} SixRounds(v: Work, m: Work)
    requires AbcBlock(m) && Start(v)
    ensures AfterFive(Rounds(v, m, 6))
  {
    RoundsStart(v, m);
    hide *;
    RoundGoesOn(v, m, 0);
    RoundZero(Rounds(v, m, 0), m);
    RoundGoesOn(v, m, 1);
    RoundOne(Rounds(v, m, 1), m);
    RoundGoesOn(v, m, 2);
    RoundTwo(Rounds(v, m, 2), m);
    RoundGoesOn(v, m, 3);
    RoundThree(Rounds(v, m, 3), m);
    RoundGoesOn(v, m, 4);
    RoundFour(Rounds(v, m, 4), m);
    RoundGoesOn(v, m, 5);
    RoundFive(Rounds(v, m, 5), m);
  }

  lemma {:induction false} TwelveRounds(v: Work, m: Work)
    requires AbcBlock(m) && Start(v)
    ensures AfterEleven(Rounds(v, m, 12))
  {
    hide *;
    SixRounds(v, m);
    RoundGoesOn(v, m, 6);
    RoundSix(Rounds(v, m, 6), m);
    RoundGoesOn(v, m, 7);
    RoundSeven(Rounds(v, m, 7), m);
    RoundGoesOn(v, m, 8);
    RoundEight(Rounds(v, m, 8), m);
    RoundGoesOn(v, m, 9);
    RoundNine(Rounds(v, m, 9), m);
    RoundGoesOn(v, m, 10);
    RoundTen(Rounds(v, m, 10), m);
    RoundGoesOn(v, m, 11);
    RoundEleven(Rounds(v, m, 11), m);
  }

  lemma RoundGoesOn(v: Work, m: Work, i: nat)
    requires i < 12
    ensures |SIGMA| == 10 && Schedule(SIGMA[i % 10])
    ensures Rounds(v, m, i + 1) == Round(Rounds(v, m, i), m, SIGMA[i % 10])
  {
    hide Round;
    TableIsSchedule(i);
    RoundsStep(v, m, i);
  }

  /** The message, "abc". */
  function Message(): (s: seq<byte>)
    ensures |s| == 3
  {
    [0x61, 0x62, 0x63]
  }

  lemma StartsSo(h: Chain)
    requires h == ParameterBlock(64)
    ensures Start(WorkVector(h, 3, true))
  {
  }

  lemma MessageIsBlock()
    ensures AbcBlock(Words(Pad(Message())))
  {
    hide SIGMA, TABLE, IV, FromLe, Load64;
    var b := Pad(Message());
    forall i | 0 <= i < 16
      ensures Words(b)[i] == if i == 0 then ABC else 0
    {
      var s := b[8 * i..8 * i + 8];
      if i == 0 {
        assert s[0] == 0x61 && s[1] == 0x62 && s[2] == 0x63 && forall j :: 3 <= j < 8 ==> s[j] == 0;
        WordIs(s, 0x636261);
      } else {
        assert forall j :: 0 <= j < 8 ==> s[j] == 0;
        WordIs(s, 0);
      }
    }
  }

  lemma WordIs(s: seq<byte>, v: nat)
    requires |s| == 8 && v == (s[0] as int) + 0x100 * (s[1] as int) + 0x1_0000 * (s[2] as int) && v < U64
    requires forall j :: 3 <= j < 8 ==> s[j] == 0
    ensures Load64(s) == Word(v)
  {
    hide SIGMA, TABLE, IV, Word;
    EightBytes(s, v);
    Le64RoundTrip(v);
  }

  lemma OneBlock()
    ensures Digest2b(Message(), 64) == Output(F(ParameterBlock(64), Pad(Message()), 3, true))
  {
    NoneBefore();
    hide *;
    FinishedIs(Message(), 64, 0);
    FirstChain(ParameterBlock(64), Message());
    var o := Output(F(ParameterBlock(64), Pad(Message()), 3, true));
    assert o[..64] == o;
  }

  lemma NoneBefore()
    ensures FullBlocks(3) == 0 && 3 < U128 && 3 % U128 == 3
    ensures BLOCKLEN * 0 == 0 && Message()[BLOCKLEN * 0..] == Message()
  {
    hide SIGMA, TABLE, IV;
  }

  lemma FirstChain(h: Chain, msg: seq<byte>)
    ensures AfterBlocks(h, msg, 0) == h
  {
    hide F, SIGMA, TABLE, IV;
  }

  lemma RoundedBlock() returns (v: Work)
    ensures AfterEleven(v) && F(ParameterBlock(64), Pad(Message()), 3, true) == Fold(ParameterBlock(64), v)
  {
    hide F, Fold, Pad, ParameterBlock, SIGMA, TABLE, IV, WorkVector, Words, Rounds;
    var h, b := ParameterBlock(64), Pad(Message());
    StartsSo(h);
    MessageIsBlock();
    hide *;
    FIs(h, b, 3, true);
    v := Rounds(WorkVector(h, 3, true), Words(b), 12);
    TwelveRounds(WorkVector(h, 3, true), Words(b));
  }

  lemma ParametersAre()
    ensures var h := ParameterBlock(64);
            && h[0] == 0x6a09e667f2bdc948 && forall i :: 0 < i < 8 ==> h[i] == IV[i]
  {
    hide SIGMA, TABLE;
    assert Word(64) == 64;
    assert Xor(0x0101_0000, 64) == 0x0101_0040;
  }

  lemma FoldedBlock(v: Work)
    requires AfterEleven(v)
    ensures var f := Fold(ParameterBlock(64), v);
            && f[0] == 0x0d4d1c983fa580ba
            && f[1] == 0xe9f6129fb697276a
            && f[2] == 0xb7c45a68142f214c
            && f[3] == 0xd1a2ffdb6fbb124b
            && f[4] == 0x2d79ab2a39c5877d
            && f[5] == 0x95cc3345ded552c2
            && f[6] == 0x5a92f1dba88ad318
            && f[7] == 0x239900d4ed8623b9
  {
    ParametersAre();
    hide ParameterBlock, SIGMA, TABLE;
  }

  lemma Below(b: seq<byte>, i: nat)
    requires i < |b|
    ensures FromLe(b[i..]) == b[i] + 256 * FromLe(b[i + 1..])
    ensures i + 1 == |b| ==> FromLe(b[i + 1..]) == 0
  {
    assert b[i..][1..] == b[i + 1..];
  }

  lemma FourBelow(b: seq<byte>, i: nat)
    requires i + 4 <= |b|
    ensures FromLe(b[i..]) == (b[i] as int) + 0x100 * (b[i + 1] as int) + 0x1_0000 * (b[i + 2] as int)
                              + 0x100_0000 * (b[i + 3] as int) + 0x1_0000_0000 * FromLe(b[i + 4..])
    ensures i + 4 == |b| ==> FromLe(b[i + 4..]) == 0
  {
    hide *;
    Below(b, i + 3);
    Below(b, i + 2);
    Below(b, i + 1);
    Below(b, i);
  }

  /** Eight bytes, by the number they spell least significant first. */
  lemma EightBytes(b: seq<byte>, v: int)
    requires |b| == 8
    requires v == (b[0] as int) + 0x100 * (b[1] as int) + 0x1_0000 * (b[2] as int) + 0x100_0000 * (b[3] as int)
                  + 0x1_0000_0000 * ((b[4] as int) + 0x100 * (b[5] as int) + 0x1_0000 * (b[6] as int)
                                     + 0x100_0000 * (b[7] as int))
    ensures v >= 0 && Le(v, 8) == b
  {
    hide *;
    FourBelow(b, 4);
    FourBelow(b, 0);
    LeOfFromLe(b);
    assert b[0..] == b;
  }

  lemma WordOut(f: Chain, i: nat)
    requires i < 8
    ensures Output(f[..i + 1]) == Output(f[..i]) + Le(f[i] as int, 8)
    ensures i == 0 ==> Output(f[..i]) + Le(f[i] as int, 8) == Le(f[0] as int, 8)
  {
    hide Le, SIGMA, TABLE, IV;
    assert f[..i + 1][..i] == f[..i];
  }

  lemma WordsOut(f: Chain)
    ensures Output(f) == Le(f[0] as int, 8) + Le(f[1] as int, 8) + Le(f[2] as int, 8) + Le(f[3] as int, 8)
                         + Le(f[4] as int, 8) + Le(f[5] as int, 8) + Le(f[6] as int, 8) + Le(f[7] as int, 8)
  {
    hide *;
    WordOut(f, 0);
    WordOut(f, 1);
    WordOut(f, 2);
    WordOut(f, 3);
    WordOut(f, 4);
    WordOut(f, 5);
    WordOut(f, 6);
    WordOut(f, 7);
    assert f[..8] == f;
  }

  /** The chain words as numbers. */
  lemma FoldedNumbers(v: Work)
    requires AfterEleven(v)
    ensures var f := Fold(ParameterBlock(64), v);
            && f[0] as int == 0x0d4d1c983fa580ba
            && f[1] as int == 0xe9f6129fb697276a
            && f[2] as int == 0xb7c45a68142f214c
            && f[3] as int == 0xd1a2ffdb6fbb124b
            && f[4] as int == 0x2d79ab2a39c5877d
            && f[5] as int == 0x95cc3345ded552c2
            && f[6] as int == 0x5a92f1dba88ad318
            && f[7] as int == 0x239900d4ed8623b9
  {
    FoldedBlock(v);
    hide *;
  }

  lemma OutZero()
    ensures Le(0x0d4d1c983fa580ba, 8) == [0xba, 0x80, 0xa5, 0x3f, 0x98, 0x1c, 0x4d, 0x0d]
  {
    hide *;
    EightBytes([0xba, 0x80, 0xa5, 0x3f, 0x98, 0x1c, 0x4d, 0x0d], 0x0d4d1c983fa580ba);
  }

  lemma OutOne()
    ensures Le(0xe9f6129fb697276a, 8) == [0x6a, 0x27, 0x97, 0xb6, 0x9f, 0x12, 0xf6, 0xe9]
  {
    hide *;
    EightBytes([0x6a, 0x27, 0x97, 0xb6, 0x9f, 0x12, 0xf6, 0xe9], 0xe9f6129fb697276a);
  }

  lemma OutTwo()
    ensures Le(0xb7c45a68142f214c, 8) == [0x4c, 0x21, 0x2f, 0x14, 0x68, 0x5a, 0xc4, 0xb7]
  {
    hide *;
    EightBytes([0x4c, 0x21, 0x2f, 0x14, 0x68, 0x5a, 0xc4, 0xb7], 0xb7c45a68142f214c);
  }

  lemma OutThree()
    ensures Le(0xd1a2ffdb6fbb124b, 8) == [0x4b, 0x12, 0xbb, 0x6f, 0xdb, 0xff, 0xa2, 0xd1]
  {
    hide *;
    EightBytes([0x4b, 0x12, 0xbb, 0x6f, 0xdb, 0xff, 0xa2, 0xd1], 0xd1a2ffdb6fbb124b);
  }

  lemma OutFour()
    ensures Le(0x2d79ab2a39c5877d, 8) == [0x7d, 0x87, 0xc5, 0x39, 0x2a, 0xab, 0x79, 0x2d]
  {
    hide *;
    EightBytes([0x7d, 0x87, 0xc5, 0x39, 0x2a, 0xab, 0x79, 0x2d], 0x2d79ab2a39c5877d);
  }

  lemma OutFive()
    ensures Le(0x95cc3345ded552c2, 8) == [0xc2, 0x52, 0xd5, 0xde, 0x45, 0x33, 0xcc, 0x95]
  {
    hide *;
    EightBytes([0xc2, 0x52, 0xd5, 0xde, 0x45, 0x33, 0xcc, 0x95], 0x95cc3345ded552c2);
  }

  lemma OutSix()
    ensures Le(0x5a92f1dba88ad318, 8) == [0x18, 0xd3, 0x8a, 0xa8, 0xdb, 0xf1, 0x92, 0x5a]
  {
    hide *;
    EightBytes([0x18, 0xd3, 0x8a, 0xa8, 0xdb, 0xf1, 0x92, 0x5a], 0x5a92f1dba88ad318);
  }

  lemma OutSeven()
    ensures Le(0x239900d4ed8623b9, 8) == [0xb9, 0x23, 0x86, 0xed, 0xd4, 0x00, 0x99, 0x23]
  {
    hide *;
    EightBytes([0xb9, 0x23, 0x86, 0xed, 0xd4, 0x00, 0x99, 0x23], 0x239900d4ed8623b9);
  }

  lemma FoldedOut(v: Work)
    requires AfterEleven(v)
    ensures Output(Fold(ParameterBlock(64), v)) == Le(0x0d4d1c983fa580ba, 8) + Le(0xe9f6129fb697276a, 8) + Le(0xb7c45a68142f214c, 8) +
            Le(0xd1a2ffdb6fbb124b, 8) + Le(0x2d79ab2a39c5877d, 8) + Le(0x95cc3345ded552c2, 8) +
            Le(0x5a92f1dba88ad318, 8) + Le(0x239900d4ed8623b9, 8)
  {
    FoldedNumbers(v);
    hide *;
    WordsOut(Fold(ParameterBlock(64), v));
  }

  lemma AbcWords(msg: seq<byte>)
    requires msg == [0x61, 0x62, 0x63]
    ensures Digest2b(msg, 64) == Le(0x0d4d1c983fa580ba, 8) + Le(0xe9f6129fb697276a, 8) + Le(0xb7c45a68142f214c, 8) +
            Le(0xd1a2ffdb6fbb124b, 8) + Le(0x2d79ab2a39c5877d, 8) + Le(0x95cc3345ded552c2, 8) +
            Le(0x5a92f1dba88ad318, 8) + Le(0x239900d4ed8623b9, 8)
  {
    assert msg == Message();
    hide *;
    OneBlock();
    var v := RoundedBlock();
    FoldedOut(v);
  }

  /** The digest of the example, as the appendix prints it. */
  lemma AbcDigest(msg: seq<byte>)
    requires msg == [0x61, 0x62, 0x63]
    ensures Digest2b(msg, 64) ==
            [0xba, 0x80, 0xa5, 0x3f, 0x98, 0x1c, 0x4d, 0x0d] +
            [0x6a, 0x27, 0x97, 0xb6, 0x9f, 0x12, 0xf6, 0xe9] +
            [0x4c, 0x21, 0x2f, 0x14, 0x68, 0x5a, 0xc4, 0xb7] +
            [0x4b, 0x12, 0xbb, 0x6f, 0xdb, 0xff, 0xa2, 0xd1] +
            [0x7d, 0x87, 0xc5, 0x39, 0x2a, 0xab, 0x79, 0x2d] +
            [0xc2, 0x52, 0xd5, 0xde, 0x45, 0x33, 0xcc, 0x95] +
            [0x18, 0xd3, 0x8a, 0xa8, 0xdb, 0xf1, 0x92, 0x5a] +
            [0xb9, 0x23, 0x86, 0xed, 0xd4, 0x00, 0x99, 0x23]
  {
    AbcWords(msg);
    hide *;
    OutZero();
    OutOne();
    OutTwo();
    OutThree();
    OutFour();
    OutFive();
    OutSix();
    OutSeven();
  }
}
