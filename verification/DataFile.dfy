/** The encrypted container in which the client keeps its lists, for any kind of record. */
module DataFile {
  import opened Bytes
  import opened Crypto
  import opened Fields
  import opened Files
  import opened Options

  /** What a record reader returns: the record and the bytes it moved past, or NULL; or it has to look
      at bytes that are not there. */
  datatype Parsed<+T> = Got(x: T, used: nat) | Failed | Overread

  /** format_desc: the length of the file's own preamble, the keys that the preamble selects, and how
      records are measured, written and read. */
  datatype Format<!T> = Format(
    prefLen: nat,
    keys: bytes -> Option<Keys>,
    len: T -> nat,
    write: T -> bytes,
    read: bytes -> Parsed<T>)

  datatype Loaded<+T> = Ok(xs: seq<T>) | Refused | Overrun

  // ----- the payload -----

  function WriteAll<T>(f: Format<T>, xs: seq<T>): bytes {
    if xs == [] then [] else f.write(xs[0]) + WriteAll(f, xs[1..])
  }

  function TotalLen<T>(f: Format<T>, xs: seq<T>): nat {
    if xs == [] then 0 else f.len(xs[0]) + TotalLen(f, xs[1..])
  }

  function Onto<T>(x: T, r: Loaded<T>): Loaded<T> {
    if r.Ok? then Ok([x] + r.xs) else r
  }

  /** The reading loop with `n` records to go and the bytes `rest` left: it stops as soon as either has
      run out, and both have to have. */
  function ReadAll<T>(f: Format<T>, n: nat, rest: bytes): Loaded<T> {
    if n == 0 || rest == [] then (if n == 0 && rest == [] then Ok([]) else Refused) else
    match f.read(rest)
    case Failed => Refused
    case Overread => Overrun
    case Got(x, used) => if used > |rest| then Refused else Onto(x, ReadAll(f, n - 1, rest[used..]))
  }

  /** The writer writes as much as was announced. */
  predicate Measured<T>(f: Format<T>, xs: seq<T>) {
    forall i | 0 <= i < |xs| :: |f.write(xs[i])| == f.len(xs[i])
  }

  /** Whatever follows it, a written record is read back. */
  ghost predicate Inverse<T>(f: Format<T>, x: T) {
    |f.write(x)| == f.len(x) && forall rest :: f.read(f.write(x) + rest) == Got(x, |f.write(x)|)
  }

  ghost predicate AllInverse<T>(f: Format<T>, xs: seq<T>) {
    forall i | 0 <= i < |xs| :: Inverse(f, xs[i])
  }

  /** Only what the writer produces is read. */
  ghost predicate Strict<T>(f: Format<T>) {
    forall b :: ReadsBack(f, b)
  }

  ghost predicate ReadsBack<T>(f: Format<T>, b: bytes) {
    var r := f.read(b);
    r.Got? && r.used <= |b| ==> f.write(r.x) == b[..r.used] && f.len(r.x) == r.used
  }

  /** The list ends in a record that takes up room, so no record is left when the bytes are used up. */
  predicate EndsInBytes<T>(f: Format<T>, xs: seq<T>) {
    xs == [] || f.len(xs[|xs| - 1]) > 0
  }

  lemma {:induction false} WriteAllLength<T>(f: Format<T>, xs: seq<T>)
    requires Measured(f, xs)
    ensures |WriteAll(f, xs)| == TotalLen(f, xs)
  {
    if xs != [] {
      WriteAllLength(f, xs[1..]);
    }
  }

  lemma {:induction false} TotalLenAtLeast<T>(f: Format<T>, xs: seq<T>, i: nat)
    requires i < |xs|
    ensures TotalLen(f, xs) >= f.len(xs[i])
    decreases |xs|
  {
    if i > 0 {
      TotalLenAtLeast(f, xs[1..], i - 1);
    }
  }

  /** One turn of the reading loop on the front of a payload. */
  lemma ReadOne<T>(f: Format<T>, x: T, n: nat, rest: bytes)
    requires Inverse(f, x)
    ensures var w := f.write(x);
      w + rest != [] ==> ReadAll(f, n + 1, w + rest) == Onto(x, ReadAll(f, n, rest))
  {
    var w := f.write(x);
    assert (w + rest)[|w|..] == rest;
  }

  lemma InverseRest<T>(f: Format<T>, xs: seq<T>)
    requires AllInverse(f, xs) && xs != []
    ensures Inverse(f, xs[0]) && AllInverse(f, xs[1..]) && Measured(f, xs)
  {
    assert forall i | 0 <= i < |xs| :: Inverse(f, xs[i]);
    assert forall i | 0 <= i < |xs[1..]| :: xs[1..][i] == xs[i + 1];
  }

  /** A payload is read back as the list that was written exactly when the list ends in bytes. */
  lemma {:induction false} ReadAllIff<T>(f: Format<T>, xs: seq<T>)
    requires AllInverse(f, xs)
    ensures ReadAll(f, |xs|, WriteAll(f, xs)) == (if EndsInBytes(f, xs) then Ok(xs) else Refused)
  {
    if xs != [] {
      hide Inverse, AllInverse, Measured;
      InverseRest(f, xs);
      ReadAllIff(f, xs[1..]);
      ReadOne(f, xs[0], |xs| - 1, WriteAll(f, xs[1..]));
      WriteAllLength(f, xs);
      if EndsInBytes(f, xs) {
        TotalLenAtLeast(f, xs, |xs| - 1);
        assert [xs[0]] + xs[1..] == xs;
      } else if WriteAll(f, xs) != [] {
        EmptyEnd(f, xs);
      }
    }
  }

  /** A list that writes something although its last record is empty has more records than that one. */
  lemma EmptyEnd<T>(f: Format<T>, xs: seq<T>)
    requires xs != [] && Measured(f, xs) && f.len(xs[|xs| - 1]) == 0 && WriteAll(f, xs) != []
    ensures |xs| > 1
  {
  }

  lemma {:induction false} ReadAllIsWritten<T>(f: Format<T>, n: nat, rest: bytes)
    requires Strict(f) && ReadAll(f, n, rest).Ok?
    ensures var xs := ReadAll(f, n, rest).xs;
      |xs| == n && WriteAll(f, xs) == rest && Measured(f, xs)
    decreases n
  {
    if n > 0 {
      var Got(x, used) := f.read(rest);
      assert ReadsBack(f, rest);
      ReadAllIsWritten(f, n - 1, rest[used..]);
      var xs := ReadAll(f, n - 1, rest[used..]).xs;
      assert ([x] + xs)[1..] == xs;
      assert rest == rest[..used] + rest[used..];
    }
  }

  // ----- the file -----

  /** The fields that the first MAC covers. */
  function Head(num: uint64, len: uint64, salt: Block, pref: bytes): (r: bytes)
    ensures |r| == 0x30 + |pref|
  {
    Be64(num) + Be64(len) + salt + pref
  }

  function Prefix(p: Primitives, k: Keys, num: uint64, len: uint64, salt: Block, pref: bytes): (r: bytes)
    ensures |r| == 0x50 + |pref|
  {
    Head(num, len, salt, pref) + p.hmac(k.hmac, Head(num, len, salt, pref))
  }

  function Cipher(p: Primitives, k: Keys, salt: Block, payload: bytes): (r: bytes)
    ensures |r| == |payload|
  {
    Stream(p, p.sha(k.symm + salt), 0, 0, payload)
  }

  /** A whole file: the prefix, the encrypted payload, and a MAC over both. */
  function Container(p: Primitives, k: Keys, num: uint64, salt: Block, pref: bytes, payload: bytes): (r: bytes)
    ensures |r| == 0x70 + |pref| + |payload|
  {
    var b := Prefix(p, k, num, Wrap64(|payload|), salt, pref) + Cipher(p, k, salt, payload);
    b + p.hmac(k.hmac, b)
  }

  /** A container byte for byte: the count, the length, the salt, the preamble and a MAC over all that; the payload under a
      key that is the hash of the file's key and the salt; and a MAC over everything before it. */
  predicate ContainerStands(p: Primitives, k: Keys, num: uint64, salt: Block, pref: bytes, payload: bytes, file: bytes) {
    var at, n := 0x30 + |pref|, |payload|;
    && |file| == at + 0x20 + n + 0x20
    && file[..8] == Be64(num) && file[8..0x10] == Be64(Wrap64(n)) && file[0x10..0x30] == salt && file[0x30..at] == pref
    && file[at..at + 0x20] == p.hmac(k.hmac, file[..at])
    && Stream(p, p.sha(k.symm + salt), 0, 0, file[at + 0x20..at + 0x20 + n]) == payload
    && file[at + 0x20 + n..] == p.hmac(k.hmac, file[..at + 0x20 + n])
  }

  lemma ContainerIff(p: Primitives, k: Keys, num: uint64, salt: Block, pref: bytes, payload: bytes, file: bytes)
    ensures file == Container(p, k, num, salt, pref, payload) <==> ContainerStands(p, k, num, salt, pref, payload, file)
  {
    hide Container, ContainerStands;
    if file == Container(p, k, num, salt, pref, payload) {
      BuiltStands(p, k, num, salt, pref, payload);
    }
    if ContainerStands(p, k, num, salt, pref, payload, file) {
      StandingIsBuilt(p, k, num, salt, pref, payload, file);
    }
  }

  lemma StandingIsBuilt(p: Primitives, k: Keys, num: uint64, salt: Block, pref: bytes, payload: bytes, file: bytes)
    requires ContainerStands(p, k, num, salt, pref, payload, file)
    ensures file == Container(p, k, num, salt, pref, payload)
  {
    hide Stream, Be64, Wrap64, Head;
    var at, n := 0x30 + |pref|, |payload|;
    StreamTwice(p, p.sha(k.symm + salt), 0, 0, file[at + 0x20..at + 0x20 + n]);
    HeadIs(num, Wrap64(n), salt, pref, file);
    assert file[..at + 0x20] == file[..at] + file[at..at + 0x20];
    assert file[..at + 0x20 + n] == file[..at + 0x20] + file[at + 0x20..at + 0x20 + n];
    assert file == file[..at + 0x20 + n] + file[at + 0x20 + n..];
  }

  lemma HeadIs(num: uint64, len: uint64, salt: Block, pref: bytes, file: bytes)
    requires |file| >= 0x30 + |pref| && file[..8] == Be64(num) && file[8..0x10] == Be64(len) && file[0x10..0x30] == salt
    requires file[0x30..0x30 + |pref|] == pref
    ensures file[..0x30 + |pref|] == Head(num, len, salt, pref)
  {
    hide Be64;
    assert file[..0x30 + |pref|] == file[..8] + file[8..0x10] + file[0x10..0x30] + file[0x30..0x30 + |pref|];
  }

  lemma BuiltStands(p: Primitives, k: Keys, num: uint64, salt: Block, pref: bytes, payload: bytes)
    ensures ContainerStands(p, k, num, salt, pref, payload, Container(p, k, num, salt, pref, payload))
  {
    hide Stream, Be64, Wrap64, Head;
    var at, n := 0x30 + |pref|, |payload|;
    var h, c := Head(num, Wrap64(n), salt, pref), Cipher(p, k, salt, payload);
    var x := h + p.hmac(k.hmac, h);
    var b := x + c;
    var file := Container(p, k, num, salt, pref, payload);
    HeadParts(num, Wrap64(n), salt, pref);
    assert file[..at + 0x20 + n] == b && file[at + 0x20 + n..] == p.hmac(k.hmac, b);
    assert file[..at] == h && file[at..at + 0x20] == p.hmac(k.hmac, h) && file[at + 0x20..at + 0x20 + n] == c;
    assert file[..8] == h[..8] && file[8..0x10] == h[8..0x10] && file[0x10..0x30] == h[0x10..0x30] && file[0x30..at] == h[0x30..];
    StreamTwice(p, p.sha(k.symm + salt), 0, 0, payload);
  }

  /** The prefix's fields when the prefix is authentic. */
  function OpenPrefix<T>(p: Primitives, f: Format<T>, file: bytes): (r: Option<(Keys, uint64, uint64)>)
    ensures r.Some? ==> |file| >= 0x50 + f.prefLen
  {
    var n := 0x30 + f.prefLen;
    if |file| < n + 0x20 || f.keys(file[0x30..n]).None? then None else
    var k := f.keys(file[0x30..n]).value;
    if p.hmac(k.hmac, file[..n]) != file[n..n + 0x20] then None else
    Some((k, De64(file[..8]), De64(file[8..0x10])))
  }

  /** The payload in the clear, when the file is authentic. */
  function OpenPayload(p: Primitives, k: Keys, prefLen: nat, len: uint64, file: bytes): Option<bytes>
    requires |file| >= 0x50 + prefLen
  {
    var n := 0x50 + prefLen;
    if |file| < n + len + 0x20 || p.hmac(k.hmac, file[..n + len]) != file[n + len..n + len + 0x20] then None else
    Some(Cipher(p, k, file[0x10..0x30], file[n..n + len]))
  }

  /** read_datafile. */
  function Load<T>(p: Primitives, f: Format<T>, file: bytes): Loaded<T> {
    match OpenPrefix(p, f, file)
    case None => Refused
    case Some((k, num, len)) =>
      match OpenPayload(p, k, f.prefLen, len, file)
      case None => Refused
      case Some(payload) => ReadAll(f, num, payload)
  }

  lemma HeadParts(num: uint64, len: uint64, salt: Block, pref: bytes)
    ensures var h := Head(num, len, salt, pref);
      && h[..8] == Be64(num) && h[8..0x10] == Be64(len) && h[0x10..0x30] == salt && h[0x30..] == pref
  {
    hide Be64;
  }

  lemma PrefixIsOpened<T>(p: Primitives, f: Format<T>, k: Keys, num: uint64, len: uint64, salt: Block, pref: bytes,
          file: bytes)
    requires |pref| == f.prefLen && f.keys(pref) == Some(k) && Prefix(p, k, num, len, salt, pref) <= file
    ensures |file| >= 0x50 + |pref|
    ensures OpenPrefix(p, f, file) == Some((k, num, len)) && file[0x10..0x30] == salt && file[0x30..0x30 + |pref|] == pref
  {
    hide Be64, De64, Head;
    var h, n := Head(num, len, salt, pref), 0x30 + |pref|;
    HeadParts(num, len, salt, pref);
    PrefixOfAppend(h, p.hmac(k.hmac, h), file);
    SliceOfPrefix(h, file, 0, 8);
    SliceOfPrefix(h, file, 8, 0x10);
    SliceOfPrefix(h, file, 0x10, 0x30);
    SliceOfPrefix(h, file, 0x30, n);
    SliceOfPrefix(Prefix(p, k, num, len, salt, pref), file, n, n + 0x20);
    assert file[..n] == h && file[n..n + 0x20] == p.hmac(k.hmac, h);
    DeBe64(num);
    DeBe64(len);
  }

  lemma OpenedIsPrefix<T>(p: Primitives, f: Format<T>, file: bytes)
    requires OpenPrefix(p, f, file).Some?
    ensures var (k, num, len) := OpenPrefix(p, f, file).value; var pref := file[0x30..0x30 + f.prefLen];
      && f.keys(pref) == Some(k)
      && Prefix(p, k, num, len, file[0x10..0x30], pref) == file[..0x50 + f.prefLen]
  {
    hide Be64, De64;
    var n := 0x30 + f.prefLen;
    assert file[..n] == file[..8] + file[8..0x10] + file[0x10..0x30] + file[0x30..n];
    assert file[..n + 0x20] == file[..n] + file[n..n + 0x20];
  }

  lemma PayloadIsOpened(p: Primitives, k: Keys, num: uint64, salt: Block, pref: bytes, payload: bytes, file: bytes)
    requires |payload| < TWO64 && Container(p, k, num, salt, pref, payload) <= file && file[0x10..0x30] == salt
    ensures OpenPayload(p, k, |pref|, |payload|, file) == Some(payload)
  {
    hide Stream, Prefix;
    var c, n := Container(p, k, num, salt, pref, payload), 0x50 + |pref|;
    var m := n + |payload|;
    SliceOfPrefix(c, file, 0, m);
    SliceOfPrefix(c, file, n, m);
    SliceOfPrefix(c, file, m, m + 0x20);
    assert c[n..m] == Cipher(p, k, salt, payload);
    assert c[..m] == Prefix(p, k, num, |payload|, salt, pref) + Cipher(p, k, salt, payload);
    StreamTwice(p, p.sha(k.symm + salt), 0, 0, payload);
  }

  lemma OpenedIsPayload(p: Primitives, k: Keys, num: uint64, len: uint64, salt: Block, pref: bytes, file: bytes)
    requires Prefix(p, k, num, len, salt, pref) <= file && file[0x10..0x30] == salt
    requires OpenPayload(p, k, |pref|, len, file).Some?
    ensures var payload := OpenPayload(p, k, |pref|, len, file).value;
      |payload| == len && Container(p, k, num, salt, pref, payload) <= file
  {
    hide Stream, Prefix;
    var n := 0x50 + |pref|;
    StreamTwice(p, p.sha(k.symm + salt), 0, 0, file[n..n + len]);
    assert file[..n] == Prefix(p, k, num, len, salt, pref);
    assert file[..n + len] == file[..n] + file[n..n + len];
    assert file[..n + len + 0x20] == file[..n + len] + file[n + len..n + len + 0x20];
  }

  // ----- what the container promises -----

  /** A list of any length that was written is read back, whatever follows it in the file, exactly when
      it is empty or its last record takes up room; the count and length checks fire in no other case. */
  lemma RoundTrip<T>(p: Primitives, f: Format<T>, k: Keys, salt: Block, pref: bytes, xs: seq<T>, file: bytes)
    requires |pref| == f.prefLen && f.keys(pref) == Some(k) && AllInverse(f, xs)
    requires |xs| < TWO64 && TotalLen(f, xs) < TWO64
    requires Container(p, k, |xs|, salt, pref, WriteAll(f, xs)) <= file
    ensures Load(p, f, file) == (if EndsInBytes(f, xs) then Ok(xs) else Refused)
  {
    hide Prefix, OpenPrefix, OpenPayload, ReadAll, WriteAll, Inverse;
    var payload := WriteAll(f, xs);
    assert Measured(f, xs) by {
      forall i | 0 <= i < |xs|
        ensures |f.write(xs[i])| == f.len(xs[i])
      {
        InverseMeasures(f, xs[i]);
      }
    }
    WriteAllLength(f, xs);
    ContainerPrefix(p, k, |xs|, salt, pref, payload, file);
    PrefixIsOpened(p, f, k, |xs|, |payload|, salt, pref, file);
    PayloadIsOpened(p, k, |xs|, salt, pref, payload, file);
    ReadAllIff(f, xs);
  }

  lemma InverseMeasures<T>(f: Format<T>, x: T)
    requires Inverse(f, x)
    ensures |f.write(x)| == f.len(x)
  {
  }

  lemma ContainerPrefix(p: Primitives, k: Keys, num: uint64, salt: Block, pref: bytes, payload: bytes, file: bytes)
    requires |payload| < TWO64 && Container(p, k, num, salt, pref, payload) <= file
    ensures Prefix(p, k, num, |payload|, salt, pref) <= file
  {
    hide Prefix, Cipher;
    var x, c := Prefix(p, k, num, |payload|, salt, pref), Cipher(p, k, salt, payload);
    PrefixOfAppend(x + c, p.hmac(k.hmac, x + c), file);
    PrefixOfAppend(x, c, file);
  }

  /** And when the record reader takes nothing but what the writer writes, an accepted file is, byte for
      byte up to where it is read, the container of the list it is read as. */
  lemma LoadedIsContainer<T>(p: Primitives, f: Format<T>, file: bytes)
    requires Strict(f) && Load(p, f, file).Ok?
    ensures var xs, pref := Load(p, f, file).xs, file[0x30..0x30 + f.prefLen];
      && |xs| < TWO64 && f.keys(pref).Some?
      && Container(p, f.keys(pref).value, |xs|, file[0x10..0x30], pref, WriteAll(f, xs)) <= file
  {
    hide Prefix, OpenPrefix, OpenPayload, ReadAll, WriteAll, Strict, Container;
    var (k, num, len) := OpenPrefix(p, f, file).value;
    var pref := file[0x30..0x30 + f.prefLen];
    OpenedIsPrefix(p, f, file);
    OpenedIsPayload(p, k, num, len, file[0x10..0x30], pref, file);
    ReadAllIsWritten(f, num, OpenPayload(p, k, f.prefLen, len, file).value);
  }

  /** A container that was cut short is refused. */
  lemma TruncatedIsRefused<T>(p: Primitives, f: Format<T>, k: Keys, num: uint64, salt: Block, pref: bytes,
          payload: bytes, file: bytes)
    requires |pref| == f.prefLen && f.keys(pref) == Some(k) && |payload| < TWO64
    requires file < Container(p, k, num, salt, pref, payload)
    ensures Load(p, f, file) == Refused
  {
    hide Prefix, OpenPrefix, ReadAll;
    var x := Prefix(p, k, num, |payload|, salt, pref);
    if |x| <= |file| {
      ContainerPrefix(p, k, num, salt, pref, payload, Container(p, k, num, salt, pref, payload));
      SliceOfPrefix(file, Container(p, k, num, salt, pref, payload), 0, |x|);
      PrefixIsOpened(p, f, k, num, |payload|, salt, pref, file);
    } else {
      ShortHasNoPrefix(p, f, file);
    }
  }

  lemma ShortHasNoPrefix<T>(p: Primitives, f: Format<T>, file: bytes)
    requires |file| < 0x50 + f.prefLen
    ensures OpenPrefix(p, f, file) == None
  {
  }
}
