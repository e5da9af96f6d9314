/** Certified powers modulo M, by square and multiply: every step is checked. */
module RandomPowers {
  import opened Bits
  import opened Random

  const N: nat := 2147483646

  /** x^k modulo M. */
  function PowerMod(x: nat, k: nat): (r: nat)
    ensures r < M
  {
    Power(x, k) % M
  }

  // ---------------------------------------------------------------- powers

  lemma ProductAssociates(a: nat, b: nat, c: nat)
    ensures a * b * c == a * (b * c)
  {}

  lemma {:induction false} PowerAdd(x: nat, i: nat, j: nat)
    ensures Power(x, i + j) == Power(x, i) * Power(x, j)
  {
    if i > 0 {
      var p, q := Power(x, i - 1), Power(x, j);
      PowerAdd(x, i - 1, j);
      assert Power(x, i + j) == x * Power(x, i - 1 + j);
      ProductAssociates(x, p, q);
    }
  }

  lemma PowerModAdd(x: nat, i: nat, j: nat)
    ensures PowerMod(x, i + j) == PowerMod(x, i) * PowerMod(x, j) % M
  {
    PowerAdd(x, i, j);
    MulModLeft(Power(x, i), Power(x, j), M);
    MulModRight(PowerMod(x, i), Power(x, j), M);
  }

  /** A power of a power. */
  lemma {:induction false} PowerModMul(x: nat, i: nat, j: nat)
    ensures i * j >= 0 && PowerMod(PowerMod(x, i), j) == PowerMod(x, i * j)
  {
    MulPositive(i, j);
    if j > 0 {
      var y := PowerMod(x, i);
      PowerModMul(x, i, j - 1);
      assert i * j == i + i * (j - 1);
      PowerModAdd(x, i, i * (j - 1));
      MulModRight(y, Power(y, j - 1), M);
    }
  }

  lemma PowerOne(x: nat)
    ensures Power(x, 1) == x
  {
    assert Power(x, 0) == 1;
  }

  /** f turns sums of exponents into products modulo M.  The evaluations below are about any such
      f, so that they use nothing but the products they list. */
  ghost predicate Exponential(f: nat -> nat) {
    forall i: nat, j: nat {:trigger Factors(i, j)} :: Factors(i, j) ==> f(i + j) == f(i) * f(j) % M
  }

  predicate Factors(i: nat, j: nat) { true }

  lemma Times(f: nat -> nat, i: nat, r: nat, j: nat, s: nat, t: nat)
    requires Exponential(f)
    requires f(i) == r && f(j) == s && r * s % M == t
    ensures f(i + j) == t
  {
    assert Factors(i, j);
  }

  lemma PowerH256(f: nat -> nat)
    requires Exponential(f) && f(1) == 16807
    ensures f(256) == 897054849
  {
    Times(f, 1, 16807, 1, 16807, 282475249);
    Times(f, 2, 282475249, 2, 282475249, 984943658);
    Times(f, 4, 984943658, 4, 984943658, 1457850878);
    Times(f, 8, 1457850878, 8, 1457850878, 1137522503);
    Times(f, 16, 1137522503, 16, 1137522503, 1636807826);
    Times(f, 32, 1636807826, 32, 1636807826, 685118024);
    Times(f, 64, 685118024, 64, 685118024, 515204530);
    Times(f, 128, 515204530, 128, 515204530, 897054849);
  }

  lemma PowerH(f: nat -> nat)
    requires Exponential(f) && f(1) == 16807
    ensures f(65538) == 826450001
  {
    PowerH256(f);
    Times(f, 256, 897054849, 256, 897054849, 2038299453);
    Times(f, 512, 2038299453, 512, 2038299453, 1836275591);
    Times(f, 1024, 1836275591, 1024, 1836275591, 349037107);
    Times(f, 2048, 349037107, 2048, 349037107, 149796865);
    Times(f, 4096, 149796865, 4096, 149796865, 1186652285);
    Times(f, 8192, 1186652285, 8192, 1186652285, 2106880871);
    Times(f, 16384, 2106880871, 16384, 2106880871, 877809922);
    Times(f, 32768, 877809922, 1, 16807, 138704164);
    Times(f, 32769, 138704164, 32769, 138704164, 826450001);
  }

  lemma PowerE(f: nat -> nat)
    requires Exponential(f) && f(1) == 16807
    ensures f(255) == 685428651
  {
    Times(f, 1, 16807, 1, 16807, 282475249);
    Times(f, 2, 282475249, 1, 16807, 1622650073);
    Times(f, 3, 1622650073, 3, 1622650073, 470211272);
    Times(f, 6, 470211272, 1, 16807, 101027544);
    Times(f, 7, 101027544, 7, 101027544, 74243042);
    Times(f, 14, 74243042, 1, 16807, 114807987);
    Times(f, 15, 114807987, 15, 114807987, 1505795335);
    Times(f, 30, 1505795335, 1, 16807, 1954899097);
    Times(f, 31, 1954899097, 31, 1954899097, 1083454666);
    Times(f, 62, 1083454666, 1, 16807, 1108728549);
    Times(f, 63, 1108728549, 63, 1108728549, 1524325968);
    Times(f, 126, 1524325968, 1, 16807, 2014119113);
    Times(f, 127, 2014119113, 127, 2014119113, 1561939997);
    Times(f, 254, 1561939997, 1, 16807, 685428651);
  }

  lemma PowerF(f: nat -> nat)
    requires Exponential(f) && f(1) == 16807
    ensures f(32767) == 1079224412
  {
    PowerE(f);
    Times(f, 255, 685428651, 255, 685428651, 1421620240);
    Times(f, 510, 1421620240, 1, 16807, 268317158);
    Times(f, 511, 268317158, 511, 268317158, 69297956);
    Times(f, 1022, 69297956, 1, 16807, 754609818);
    Times(f, 1023, 754609818, 1023, 754609818, 878627494);
    Times(f, 2046, 878627494, 1, 16807, 994734886);
    Times(f, 2047, 994734886, 2047, 994734886, 1698297624);
    Times(f, 4094, 1698297624, 1, 16807, 1083014291);
    Times(f, 4095, 1083014291, 4095, 1083014291, 387634529);
    Times(f, 8190, 387634529, 1, 16807, 1655627552);
    Times(f, 8191, 1655627552, 8191, 1655627552, 1577941137);
    Times(f, 16382, 1577941137, 1, 16807, 1181132756);
    Times(f, 16383, 1181132756, 16383, 1181132756, 1101980020);
    Times(f, 32766, 1101980020, 1, 16807, 1079224412);
  }

  lemma PowerG(f: nat -> nat)
    requires Exponential(f) && f(1) == 16807
    ensures f(65534) == 984924185
  {
    PowerF(f);
    Times(f, 32767, 1079224412, 32767, 1079224412, 984924185);
  }

  lemma PowerG99(f: nat -> nat)
    requires Exponential(f) && f(1) == 984924185
    ensures f(99) == 759513457
  {
    Times(f, 1, 984924185, 1, 984924185, 574246853);
    Times(f, 2, 574246853, 1, 984924185, 1539066816);
    Times(f, 3, 1539066816, 3, 1539066816, 438886580);
    Times(f, 6, 438886580, 6, 438886580, 315893479);
    Times(f, 12, 315893479, 12, 315893479, 1933995778);
    Times(f, 24, 1933995778, 24, 1933995778, 420180542);
    Times(f, 48, 420180542, 1, 984924185, 1927361920);
    Times(f, 49, 1927361920, 49, 1927361920, 2101932938);
    Times(f, 98, 2101932938, 1, 984924185, 759513457);
  }

  lemma PowerG93(f: nat -> nat)
    requires Exponential(f) && f(1) == 984924185
    ensures f(93) == 1527195414
  {
    Times(f, 1, 984924185, 1, 984924185, 574246853);
    Times(f, 2, 574246853, 2, 574246853, 457589386);
    Times(f, 4, 457589386, 1, 984924185, 1968068956);
    Times(f, 5, 1968068956, 5, 1968068956, 381846626);
    Times(f, 10, 381846626, 1, 984924185, 1872803136);
    Times(f, 11, 1872803136, 11, 1872803136, 1907168289);
    Times(f, 22, 1907168289, 1, 984924185, 1045867094);
    Times(f, 23, 1045867094, 23, 1045867094, 695895189);
    Times(f, 46, 695895189, 46, 695895189, 1780412653);
    Times(f, 92, 1780412653, 1, 984924185, 1527195414);
  }

  lemma PowerG2979(f: nat -> nat)
    requires Exponential(f) && f(1) == 984924185
    ensures f(2979) == 298192073
  {
    PowerG93(f);
    Times(f, 93, 1527195414, 93, 1527195414, 233300446);
    Times(f, 186, 233300446, 186, 233300446, 1936636535);
    Times(f, 372, 1936636535, 372, 1936636535, 405699113);
    Times(f, 744, 405699113, 744, 405699113, 1436064064);
    Times(f, 1488, 1436064064, 1, 984924185, 924384190);
    Times(f, 1489, 924384190, 1489, 924384190, 1726324283);
    Times(f, 2978, 1726324283, 1, 984924185, 298192073);
  }

  lemma PowerG85(f: nat -> nat)
    requires Exponential(f) && f(1) == 984924185
    ensures f(85) == 1997381353
  {
    Times(f, 1, 984924185, 1, 984924185, 574246853);
    Times(f, 2, 574246853, 2, 574246853, 457589386);
    Times(f, 4, 457589386, 1, 984924185, 1968068956);
    Times(f, 5, 1968068956, 5, 1968068956, 381846626);
    Times(f, 10, 381846626, 10, 381846626, 1158232735);
    Times(f, 20, 1158232735, 1, 984924185, 122922157);
    Times(f, 21, 122922157, 21, 122922157, 679967124);
    Times(f, 42, 679967124, 42, 679967124, 1084913903);
    Times(f, 84, 1084913903, 1, 984924185, 1997381353);
  }

  lemma PowerG10923(f: nat -> nat)
    requires Exponential(f) && f(1) == 984924185
    ensures f(10923) == 634005911
  {
    PowerG85(f);
    Times(f, 85, 1997381353, 85, 1997381353, 319407358);
    Times(f, 170, 319407358, 170, 319407358, 675730238);
    Times(f, 340, 675730238, 1, 984924185, 862591185);
    Times(f, 341, 862591185, 341, 862591185, 1780661848);
    Times(f, 682, 1780661848, 682, 1780661848, 1424511728);
    Times(f, 1364, 1424511728, 1, 984924185, 1620395302);
    Times(f, 1365, 1620395302, 1365, 1620395302, 1506416496);
    Times(f, 2730, 1506416496, 2730, 1506416496, 501323946);
    Times(f, 5460, 501323946, 1, 984924185, 113497054);
    Times(f, 5461, 113497054, 5461, 113497054, 1541880825);
    Times(f, 10922, 1541880825, 1, 984924185, 634005911);
  }

  lemma PowerH217(f: nat -> nat)
    requires Exponential(f) && f(1) == 826450001
    ensures f(217) == 1013763951
  {
    Times(f, 1, 826450001, 1, 826450001, 589201165);
    Times(f, 2, 589201165, 1, 826450001, 2011973493);
    Times(f, 3, 2011973493, 3, 2011973493, 168109183);
    Times(f, 6, 168109183, 6, 168109183, 1592968425);
    Times(f, 12, 1592968425, 1, 826450001, 1199458611);
    Times(f, 13, 1199458611, 13, 1199458611, 353416694);
    Times(f, 26, 353416694, 1, 826450001, 596291454);
    Times(f, 27, 596291454, 27, 596291454, 704901184);
    Times(f, 54, 704901184, 54, 704901184, 281191881);
    Times(f, 108, 281191881, 108, 281191881, 1379043650);
    Times(f, 216, 1379043650, 1, 826450001, 1013763951);
  }

  lemma PowerH1057(f: nat -> nat)
    requires Exponential(f) && f(1) == 826450001
    ensures f(1057) == 16384
  {
    Times(f, 1, 826450001, 1, 826450001, 589201165);
    Times(f, 2, 589201165, 2, 589201165, 498899816);
    Times(f, 4, 498899816, 4, 498899816, 905946772);
    Times(f, 8, 905946772, 8, 905946772, 637794845);
    Times(f, 16, 637794845, 16, 637794845, 2018837481);
    Times(f, 32, 2018837481, 1, 826450001, 2126056132);
    Times(f, 33, 2126056132, 33, 2126056132, 2100379331);
    Times(f, 66, 2100379331, 66, 2100379331, 2122009104);
    Times(f, 132, 2122009104, 132, 2122009104, 2110288272);
    Times(f, 264, 2110288272, 264, 2110288272, 1056647345);
    Times(f, 528, 1056647345, 528, 1056647345, 747308702);
    Times(f, 1056, 747308702, 1, 826450001, 16384);
  }

  lemma PowerH73(f: nat -> nat)
    requires Exponential(f) && f(1) == 826450001
    ensures f(73) == 1583043390
  {
    Times(f, 1, 826450001, 1, 826450001, 589201165);
    Times(f, 2, 589201165, 2, 589201165, 498899816);
    Times(f, 4, 498899816, 4, 498899816, 905946772);
    Times(f, 8, 905946772, 1, 826450001, 955264524);
    Times(f, 9, 955264524, 9, 955264524, 941374343);
    Times(f, 18, 941374343, 18, 941374343, 1006123905);
    Times(f, 36, 1006123905, 36, 1006123905, 1776119618);
    Times(f, 72, 1776119618, 1, 826450001, 1583043390);
  }

  lemma PowerH4681(f: nat -> nat)
    requires Exponential(f) && f(1) == 826450001
    ensures f(4681) == 1600955193
  {
    PowerH73(f);
    Times(f, 73, 1583043390, 73, 1583043390, 380872304);
    Times(f, 146, 380872304, 146, 380872304, 1893477978);
    Times(f, 292, 1893477978, 292, 1893477978, 1452753793);
    Times(f, 584, 1452753793, 1, 826450001, 698480155);
    Times(f, 585, 698480155, 585, 698480155, 773354865);
    Times(f, 1170, 773354865, 1170, 773354865, 1739199734);
    Times(f, 2340, 1739199734, 2340, 1739199734, 543422496);
    Times(f, 4680, 543422496, 1, 826450001, 1600955193);
  }

  lemma PowerF256(f: nat -> nat)
    requires Exponential(f) && f(1) == 1079224412
    ensures f(256) == 1534455036
  {
    Times(f, 1, 1079224412, 1, 1079224412, 984924185);
    Times(f, 2, 984924185, 2, 984924185, 574246853);
    Times(f, 4, 574246853, 4, 574246853, 457589386);
    Times(f, 8, 457589386, 8, 457589386, 378748167);
    Times(f, 16, 378748167, 16, 378748167, 1553046665);
    Times(f, 32, 1553046665, 32, 1553046665, 1843083259);
    Times(f, 64, 1843083259, 64, 1843083259, 1878565602);
    Times(f, 128, 1878565602, 128, 1878565602, 1534455036);
  }

  lemma PowerF32769(f: nat -> nat)
    requires Exponential(f) && f(1) == 1079224412
    ensures f(32769) == 2147483646
  {
    PowerF256(f);
    Times(f, 256, 1534455036, 256, 1534455036, 1662235051);
    Times(f, 512, 1662235051, 512, 1662235051, 1767924245);
    Times(f, 1024, 1767924245, 1024, 1767924245, 1175748407);
    Times(f, 2048, 1175748407, 2048, 1175748407, 1512967229);
    Times(f, 4096, 1512967229, 4096, 1512967229, 168466512);
    Times(f, 8192, 168466512, 8192, 168466512, 27836845);
    Times(f, 16384, 27836845, 16384, 27836845, 530305133);
    Times(f, 32768, 530305133, 1, 1079224412, 2147483646);
  }

  lemma PowersAreExponential(x: nat)
    ensures Exponential(k => PowerMod(x, k))
    ensures PowerMod(x, 1) == x % M
  {
    PowerOne(x);
    var f := (k: nat) => PowerMod(x, k);
    forall i: nat, j: nat | Factors(i, j) ensures f(i + j) == f(i) * f(j) % M {
      PowerModAdd(x, i, j);
    }
  }

  /** The powers of A that decide its order: A^N is 1 and no A^(N/q) is.  They factor through
      A^32767, A^65534 and A^65538. */
  lemma PowersOfF()
    ensures PowerMod(A, 1073741823) == 2147483646
  {
    PowersAreExponential(A);
    PowerF(k => PowerMod(A, k));
    var y := PowerMod(A, 32767);
    PowersAreExponential(y);
    PowerF32769(k => PowerMod(y, k));
    PowerModMul(A, 32767, 32769);
  }

  lemma PowersOfG()
    ensures PowerMod(A, 6487866) == 759513457
    ensures PowerMod(A, 195225786) == 298192073
    ensures PowerMod(A, 715827882) == 634005911
  {
    PowersAreExponential(A);
    PowerG(k => PowerMod(A, k));
    var y := PowerMod(A, 65534);
    PowersAreExponential(y);
    PowerG99(k => PowerMod(y, k));
    PowerG2979(k => PowerMod(y, k));
    PowerG10923(k => PowerMod(y, k));
    PowerModMul(A, 65534, 99);
    PowerModMul(A, 65534, 2979);
    PowerModMul(A, 65534, 10923);
  }

  lemma PowersOfH()
    ensures PowerMod(A, 14221746) == 1013763951
    ensures PowerMod(A, 69273666) == 16384
    ensures PowerMod(A, 306783378) == 1600955193
  {
    PowersAreExponential(A);
    PowerH(k => PowerMod(A, k));
    var y := PowerMod(A, 65538);
    PowersAreExponential(y);
    PowerH217(k => PowerMod(y, k));
    PowerH1057(k => PowerMod(y, k));
    PowerH4681(k => PowerMod(y, k));
    PowerModMul(A, 65538, 217);
    PowerModMul(A, 65538, 1057);
    PowerModMul(A, 65538, 4681);
  }

  lemma PowerN(f: nat -> nat)
    requires Exponential(f) && f(1073741823) == 2147483646
    ensures f(N) == 1
  {
    Times(f, 1073741823, 2147483646, 1073741823, 2147483646, 1);
  }

  lemma FullPower()
    ensures PowerMod(A, N) == 1
  {
    PowersOfF();
    PowersAreExponential(A);
    PowerN(k => PowerMod(A, k));
  }
}
