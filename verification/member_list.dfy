/**
 The member list of `GET /teams/:sport`. The query folds a team's members
 into one string, each member written as `name|id` and the members joined
 by `,` (NULL when the team has none); the handler splits that string back
 into `{ id, name }` objects, reading the id with JavaScript's `parseInt`.
 */
module MemberList {
  import opened Results
  import opened Seqs

  /** A decoded member; an id `parseInt` cannot read is NaN, which the JSON reply writes as null. */
  datatype Member = Member(id: Option<int>, name: string)

  /** A joined `students` row as the query sees it. */
  datatype Student = Student(id: nat, name: string)

  // ---------------------------------------------------------------------
  // String.prototype.split and the separator-joined strings it undoes
  // ---------------------------------------------------------------------

  /** The number of occurrences of `c` in `s`. */
  function Count(s: string, c: char): nat
    decreases |s|
  {
    if |s| == 0 then 0 else (if s[0] == c then 1 else 0) + Count(s[1..], c)
  }

  /**
   `s.split(sep)` for a one-character separator: the pieces between the
   occurrences of `sep`, one more than there are occurrences.
   */
  function Split(s: string, sep: char): (r: seq<string>)
    ensures |r| == Count(s, sep) + 1
    ensures forall k :: 0 <= k < |r| ==> sep !in r[k]
    decreases |s|
  {
    if |s| == 0 then [""]
    else
      var rest := Split(s[1..], sep);
      if s[0] == sep then [""] + rest
      else [[s[0]] + rest[0]] + rest[1..]
  }

  /** The pieces written out with `sep` between neighbours. */
  function Join(parts: seq<string>, sep: char): string
    decreases |parts|
  {
    if |parts| == 0 then ""
    else if |parts| == 1 then parts[0]
    else parts[0] + [sep] + Join(parts[1..], sep)
  }

  /** Splitting a piece that does not contain the separator, followed by more text, extends the first piece. */
  lemma {:induction false} SplitPrefix(p: string, t: string, sep: char)
    requires sep !in p
    ensures Split(p + t, sep) == [p + Split(t, sep)[0]] + Split(t, sep)[1..]
    decreases |p|
  {
    if |p| > 0 {
      assert (p + t)[1..] == p[1..] + t;
      SplitPrefix(p[1..], t, sep);
      assert [p[0]] + (p[1..] + Split(t, sep)[0]) == p + Split(t, sep)[0];
    } else {
      assert p + t == t;
      assert p + Split(t, sep)[0] == Split(t, sep)[0];
      assert Split(t, sep) == [Split(t, sep)[0]] + Split(t, sep)[1..];
    }
  }

  /** A string without the separator is one piece. */
  lemma SplitWhole(s: string, sep: char)
    requires sep !in s
    ensures Split(s, sep) == [s]
  {
    SplitPrefix(s, "", sep);
    assert s + "" == s;
  }

  /** Every character of a piece comes from the split string. */
  lemma {:induction false} SplitPiecesFrom(s: string, sep: char)
    ensures forall k, c :: 0 <= k < |Split(s, sep)| && c in Split(s, sep)[k] ==> c in s
    decreases |s|
  {
    if |s| > 0 {
      SplitPiecesFrom(s[1..], sep);
      var rest := Split(s[1..], sep);
      var r := Split(s, sep);
      forall k, c | 0 <= k < |r| && c in r[k] ensures c in s {
        if s[0] == sep {
          assert k == 0 || r[k] == rest[k - 1];
        } else if k == 0 {
          assert r[0] == [s[0]] + rest[0];
          assert c == s[0] || c in rest[0];
        } else {
          assert r[k] == rest[k];
        }
        assert c == s[0] || c in s[1..];
      }
    }
  }

  /** Splitting a joined list gives the list back when no piece contains the separator. */
  lemma {:induction false} SplitJoin(parts: seq<string>, sep: char)
    requires |parts| > 0
    requires forall k :: 0 <= k < |parts| ==> sep !in parts[k]
    ensures Split(Join(parts, sep), sep) == parts
    decreases |parts|
  {
    if |parts| == 1 {
      SplitPrefix(parts[0], "", sep);
      assert parts[0] + "" == parts[0];
    } else {
      var rest := Join(parts[1..], sep);
      SplitJoin(parts[1..], sep);
      assert Join(parts, sep) == parts[0] + ([sep] + rest);
      SplitPrefix(parts[0], [sep] + rest, sep);
      assert ([sep] + rest)[1..] == rest;
      assert Split([sep] + rest, sep) == [""] + parts[1..];
      assert parts[0] + "" == parts[0];
    }
  }

  /** Joining the pieces of a split gives the string back. */
  lemma {:induction false} JoinSplit(s: string, sep: char)
    ensures Join(Split(s, sep), sep) == s
    decreases |s|
  {
    if |s| > 0 {
      var rest := Split(s[1..], sep);
      JoinSplit(s[1..], sep);
      if s[0] == sep {
        assert Join(Split(s, sep), sep) == "" + [sep] + Join(rest, sep);
        assert s == [s[0]] + s[1..];
      } else {
        JoinConsFirst(s[0], rest, sep);
        assert s == [s[0]] + s[1..];
      }
    }
  }

  /** Putting a character in front of the first piece puts it in front of the joined string. */
  lemma JoinConsFirst(c: char, parts: seq<string>, sep: char)
    requires |parts| > 0
    ensures Join([[c] + parts[0]] + parts[1..], sep) == [c] + Join(parts, sep)
  {
    var q := [[c] + parts[0]] + parts[1..];
    assert q[1..] == parts[1..];
    if |parts| > 1 {
      assert Join(q, sep) == [c] + parts[0] + [sep] + Join(parts[1..], sep);
    }
  }

  // ---------------------------------------------------------------------
  // parseInt with no radix argument
  // ---------------------------------------------------------------------

  /**
   The characters `parseInt` skips before the number: the ECMAScript
   WhiteSpace and LineTerminator characters (tab, vertical tab, form feed,
   space, no-break space, byte order mark, the Unicode space separators,
   line feed, carriage return, line and paragraph separators).
   */
  predicate IsJsSpace(c: char) {
    var n := c as int;
    || n == 0x09 || n == 0x0A || n == 0x0B || n == 0x0C || n == 0x0D || n == 0x20
    || n == 0xA0 || n == 0x1680 || (0x2000 <= n <= 0x200A) || n == 0x2028 || n == 0x2029
    || n == 0x202F || n == 0x205F || n == 0x3000 || n == 0xFEFF
  }

  /** `s` with its leading white space removed. */
  function TrimStart(s: string): (r: string)
    ensures |r| <= |s| && r == s[|s| - |r|..]
    ensures |r| > 0 ==> !IsJsSpace(r[0])
    ensures forall k :: 0 <= k < |s| - |r| ==> IsJsSpace(s[k])
    decreases |s|
  {
    if |s| > 0 && IsJsSpace(s[0]) then TrimStart(s[1..]) else s
  }

  /** The value of a digit character in bases up to 36 (`0`-`9`, then `a`-`z` in either case). */
  function DigitValue(c: char): Option<nat> {
    if '0' <= c <= '9' then Some(c as int - '0' as int)
    else if 'a' <= c <= 'z' then Some(c as int - 'a' as int + 10)
    else if 'A' <= c <= 'Z' then Some(c as int - 'A' as int + 10)
    else None
  }

  predicate IsDigitIn(c: char, radix: nat) {
    DigitValue(c).Some? && DigitValue(c).value < radix
  }

  /** The longest prefix of `s` made of digits of the radix. */
  function DigitRun(s: string, radix: nat): (r: string)
    ensures |r| <= |s| && r == s[..|r|]
    ensures forall k :: 0 <= k < |r| ==> IsDigitIn(r[k], radix)
    ensures |r| < |s| ==> !IsDigitIn(s[|r|], radix)
    decreases |s|
  {
    if |s| > 0 && IsDigitIn(s[0], radix) then [s[0]] + DigitRun(s[1..], radix) else ""
  }

  /** Every character of `s` is a digit of the radix. */
  predicate AllDigits(s: string, radix: nat) {
    forall k :: 0 <= k < |s| ==> IsDigitIn(s[k], radix)
  }

  lemma AllDigitsPrefix(s: string, radix: nat, n: nat)
    requires AllDigits(s, radix) && n <= |s|
    ensures AllDigits(s[..n], radix)
  {
    forall k | 0 <= k < n ensures IsDigitIn(s[..n][k], radix) {
      assert s[..n][k] == s[k];
    }
  }

  /** The number a string of digits denotes in the radix. */
  function ValueOf(digits: string, radix: nat): nat
    requires AllDigits(digits, radix)
    decreases |digits|
  {
    if |digits| == 0 then 0
    else
      var n := |digits| - 1;
      AllDigitsPrefix(digits, radix, n);
      var low := DigitValue(digits[n]);
      assert low.Some?;
      ValueOf(digits[..n], radix) * radix + low.value
  }

  /**
   `parseInt(s)`: skip leading white space, take an optional sign, switch
   to base 16 after a `0x` or `0X` prefix, and read the longest run of
   digits that follows; no digit at all gives NaN (`None`). Anything after
   the digits is ignored. `-0` is written as 0.
   */
  function ParseInt(s: string): (r: Option<int>)
  {
    var t := TrimStart(s);
    var negative := |t| > 0 && t[0] == '-';
    var u := if |t| > 0 && (t[0] == '-' || t[0] == '+') then t[1..] else t;
    var hex := |u| >= 2 && u[0] == '0' && (u[1] == 'x' || u[1] == 'X');
    var radix := if hex then 16 else 10;
    var z := DigitRun(if hex then u[2..] else u, radix);
    if |z| == 0 then None
    else
      var v: int := ValueOf(z, radix);
      Some(if negative then -v else v)
  }

  // ---------------------------------------------------------------------
  // Decimal notation, as CONCAT writes an integer column
  // ---------------------------------------------------------------------

  function DigitChar(d: nat): char
    requires d < 10
  {
    ('0' as int + d) as char
  }

  /** The decimal digits of `n`, most significant first, with no leading zero. */
  function Decimal(n: nat): (r: string)
    ensures |r| > 0
    ensures forall k :: 0 <= k < |r| ==> '0' <= r[k] <= '9'
    ensures r[0] == '0' ==> n == 0
    ensures n == 0 ==> r == "0"
  {
    if n < 10 then [DigitChar(n)] else Decimal(n / 10) + [DigitChar(n % 10)]
  }

  /** Reading back the decimal notation gives the number. */
  lemma {:induction false} ValueOfDecimal(n: nat)
    ensures forall k :: 0 <= k < |Decimal(n)| ==> IsDigitIn(Decimal(n)[k], 10)
    ensures ValueOf(Decimal(n), 10) == n
  {
    var d := Decimal(n);
    assert forall k :: 0 <= k < |d| ==> IsDigitIn(d[k], 10);
    if n >= 10 {
      ValueOfDecimal(n / 10);
      assert d[..|d| - 1] == Decimal(n / 10);
    }
  }

  /** A run of digits followed by something that is not a digit is exactly the digit run. */
  lemma {:induction false} DigitRunStops(digits: string, rest: string, radix: nat)
    requires forall k :: 0 <= k < |digits| ==> IsDigitIn(digits[k], radix)
    requires |rest| > 0 ==> !IsDigitIn(rest[0], radix)
    ensures DigitRun(digits + rest, radix) == digits
    decreases |digits|
  {
    if |digits| > 0 {
      assert (digits + rest)[1..] == digits[1..] + rest;
      DigitRunStops(digits[1..], rest, radix);
    } else {
      assert digits + rest == rest;
    }
  }

  /**
   `parseInt` reads back any integer written in decimal, whatever text
   follows it that does not start with a letter or a digit.
   */
  lemma ParseIntDecimal(n: nat, rest: string)
    requires |rest| > 0 ==> DigitValue(rest[0]).None?
    ensures ParseInt(Decimal(n) + rest) == Some(n)
  {
    var d := Decimal(n);
    var s := d + rest;
    assert s[0] == d[0] && !IsJsSpace(s[0]) && s[0] != '-' && s[0] != '+';
    assert TrimStart(s) == s;
    assert !(|s| >= 2 && s[0] == '0' && (s[1] == 'x' || s[1] == 'X')) by {
      if |s| >= 2 && s[0] == '0' {
        assert d == "0";
        assert s[1] == rest[0];
      }
    }
    ValueOfDecimal(n);
    DigitRunStops(d, rest, 10);
    assert DigitRun(s, 10) == d;
  }

  // ---------------------------------------------------------------------
  // Encoding and decoding the member list
  // ---------------------------------------------------------------------

  /** `CONCAT(s.name, '|', s.id)`. */
  function EntryOf(s: Student): string {
    s.name + "|" + Decimal(s.id)
  }

  /** `GROUP_CONCAT(... SEPARATOR ',')`: NULL for a team with no members. */
  function Encode(students: seq<Student>): (r: Option<string>)
    ensures r.None? <==> |students| == 0
  {
    if |students| == 0 then None else Some(Join(Map(EntryOf, students), ','))
  }

  /**
   One entry `name|id`: the text before the first `|` is the name and the
   text between the first and the second `|` is the id; without a `|` the id
   is `undefined`, which `parseInt` reads as NaN.
   */
  function DecodeEntry(entry: string): (r: Member)
    ensures '|' !in r.name
    ensures forall c :: c in r.name ==> c in entry
    ensures '|' !in entry ==> r == Member(None, entry)
  {
    var parts := Split(entry, '|');
    SplitPiecesFrom(entry, '|');
    assert '|' !in entry ==> parts == [entry] by {
      if '|' !in entry { SplitWhole(entry, '|'); }
    }
    if |parts| == 1 then
      ParseIntNaN("undefined");
      Member(ParseInt("undefined"), parts[0])
    else Member(ParseInt(parts[1]), parts[0])
  }

  /** A string that starts with a character other than white space, a sign or a digit is NaN. */
  lemma ParseIntNaN(s: string)
    requires |s| > 0 && !IsJsSpace(s[0]) && s[0] != '-' && s[0] != '+' && !('0' <= s[0] <= '9')
    ensures ParseInt(s) == None
  {
    assert TrimStart(s) == s;
    assert DigitRun(s, 10) == "";
  }

  /**
   The handler's parse: a NULL or empty string is no members; otherwise one
   member per `,`-separated entry.
   */
  function Decode(s: Option<string>): (r: seq<Member>)
    ensures s.None? || s == Some("") ==> r == []
    ensures s.Some? && s.value != "" ==> |r| == Count(s.value, ',') + 1
    ensures forall k :: 0 <= k < |r| ==> ',' !in r[k].name && '|' !in r[k].name
  {
    if s.None? || s.value == "" then []
    else
      var entries := Split(s.value, ',');
      var r := Map(DecodeEntry, entries);
      assert forall k :: 0 <= k < |r| ==> ',' !in r[k].name by {
        forall k | 0 <= k < |r| ensures ',' !in r[k].name {
          assert r[k] == DecodeEntry(entries[k]);
          assert ',' !in entries[k];
        }
      }
      r
  }

  /** The member the listing should report for a student. */
  function AsMember(s: Student): Member {
    Member(Some(s.id), s.name)
  }

  /** Neither separator occurs in the name. */
  predicate PlainName(name: string) {
    ',' !in name && '|' !in name
  }

  lemma DecodeEntryOf(s: Student)
    requires PlainName(s.name)
    ensures DecodeEntry(EntryOf(s)) == Member(Some(s.id), s.name)
  {
    var digits := Decimal(s.id);
    var tail := "|" + digits;
    assert EntryOf(s) == s.name + tail;
    assert tail[1..] == digits;
    SplitWhole(digits, '|');
    assert Split(tail, '|') == [""] + [digits];
    SplitPrefix(s.name, tail, '|');
    assert s.name + "" == s.name;
    assert Split(EntryOf(s), '|') == [s.name, digits];
    ParseIntDecimal(s.id, "");
    assert digits + "" == digits;
  }

  /**
   Decoding the string the query builds gives back every member, id and
   name, in order, provided no name contains `,` or `|`.
   */
  lemma {:induction false} DecodeEncode(students: seq<Student>)
    requires forall k :: 0 <= k < |students| ==> PlainName(students[k].name)
    ensures Decode(Encode(students)) == Map(AsMember, students)
  {
    if |students| > 0 {
      var entries := Map(EntryOf, students);
      forall k | 0 <= k < |entries| ensures ',' !in entries[k] && '|' in entries[k] {
        var st := students[k];
        assert entries[k] == st.name + "|" + Decimal(st.id);
        assert entries[k][|st.name|] == '|';
      }
      SplitJoin(entries, ',');
      var joined := Join(entries, ',');
      assert joined != "";
      assert Encode(students) == Some(joined);
      var decoded := Decode(Some(joined));
      assert decoded == Map(DecodeEntry, entries);
      forall k | 0 <= k < |students| ensures decoded[k] == AsMember(students[k]) {
        DecodeEntryOf(students[k]);
      }
    }
  }

  /**
   A name that contains a `,` is split into two entries, so the list does
   not come back: the decoder cannot tell the separator from the name. The
   text before the comma becomes a member of its own whose id is NaN.
   */
  lemma CommaInNameSplitsMember(id: nat, first: string, second: string)
    requires PlainName(first) && PlainName(second)
    ensures Decode(Encode([Student(id, first + "," + second)]))
         == [Member(None, first), Member(Some(id), second)]
  {
    var tail := EntryOf(Student(id, second));
    var e := EntryOf(Student(id, first + "," + second));
    assert Encode([Student(id, first + "," + second)]) == Some(e);
    CommaInNameEntries(id, first, second);
    var r := Decode(Some(e));
    assert r == Map(DecodeEntry, [first, tail]);
    assert r[0] == DecodeEntry(first) == Member(None, first);
    DecodeEntryOf(Student(id, second));
  }

  /** The entry of a name with one comma splits at that comma. */
  lemma CommaInNameEntries(id: nat, first: string, second: string)
    requires PlainName(first) && PlainName(second)
    ensures Split(EntryOf(Student(id, first + "," + second)), ',') == [first, EntryOf(Student(id, second))]
  {
    var tail := EntryOf(Student(id, second));
    var rest := [','] + tail;
    assert EntryOf(Student(id, first + "," + second)) == first + rest;
    assert ',' !in tail by {
      assert tail == second + "|" + Decimal(id);
    }
    SplitWhole(tail, ',');
    assert rest[1..] == tail;
    assert Split(rest, ',') == [""] + [tail];
    SplitPrefix(first, rest, ',');
    assert first + "" == first;
  }
}
