/**
 Pairing the per-file scores with the class roster. Every roster name, in
 roster order, gets the first score record whose submission key equals its
 compact key (or a placeholder row when there is none); then every score
 record whose key appears in no row so far is appended, in scan order, under
 the name "?". Keys are compared exactly, without changing case.
 */
module Pairing {
  import opened Records
  import opened Names

  /** The index of the first record whose submission key is `key`. */
  function FirstMatch(data: seq<ScoreRecord>, key: string): (r: Option<nat>)
    ensures r.Some? ==> r.value < |data| && data[r.value].studentName == key
    ensures r.Some? ==> forall m :: 0 <= m < r.value ==> data[m].studentName != key
    ensures r.None? <==> forall m :: 0 <= m < |data| ==> data[m].studentName != key
  {
    if data == [] then None
    else if data[0].studentName == key then Some(0)
    else
      match FirstMatch(data[1..], key)
      case Some(k) => Some(k + 1)
      case None => None
  }

  /** The row for one roster name: a copy of the first record whose key is the
      name's compact key, or the placeholder when no record has that key. */
  function RosterEntry(data: seq<ScoreRecord>, name: string): (p: PairedRecord)
    ensures p.trueName == name
    ensures p.MissingStudent? <==> forall m :: 0 <= m < |data| ==> data[m].studentName != CompactName(name)
    ensures p.Paired? ==> exists k :: 0 <= k < |data| && data[k] == p.source && IsFirstWithKey(data, k, CompactName(name))
  {
    match FirstMatch(data, CompactName(name))
    case Some(k) =>
      assert IsFirstWithKey(data, k, CompactName(name));
      Paired(name, data[k])
    case None => MissingStudent(name)
  }

  /** `data[k]` is the first record with submission key `key`. */
  predicate IsFirstWithKey(data: seq<ScoreRecord>, k: int, key: string) {
    0 <= k < |data| && data[k].studentName == key
    && forall m :: 0 <= m < k ==> data[m].studentName != key
  }

  /** The rows for the roster, one per name and in roster order. */
  function RosterBlock(data: seq<ScoreRecord>, names: seq<string>): (block: seq<PairedRecord>)
    ensures |block| == |names|
    ensures forall i :: 0 <= i < |names| ==> block[i] == RosterEntry(data, names[i])
  {
    if names == [] then []
    else [RosterEntry(data, names[0])] + RosterBlock(data, names[1..])
  }

  /** The `student_name` values already present among `rows`. */
  function KeysOf(rows: seq<PairedRecord>): set<string>
  {
    set i | 0 <= i < |rows| :: rows[i].StudentName()
  }

  /** Some row of `rows` has `key` as its `student_name`. */
  predicate HasKey(rows: seq<PairedRecord>, key: string) {
    exists i | 0 <= i < |rows| :: rows[i].StudentName() == key
  }

  /** Reference definition of the orphan rows: walk the records in scan order
      and emit a record under the name "?" when its key is not yet in `seen`,
      adding the key to `seen`. */
  function Orphans(data: seq<ScoreRecord>, seen: set<string>): seq<PairedRecord>
  {
    if data == [] then []
    else if data[0].studentName in seen then Orphans(data[1..], seen)
    else [Paired(OrphanName, data[0])] + Orphans(data[1..], seen + {data[0].studentName})
  }

  lemma HasKeyIff(rows: seq<PairedRecord>, key: string)
    ensures HasKey(rows, key) <==> key in KeysOf(rows)
  {
    if key in KeysOf(rows) {
      var i :| 0 <= i < |rows| && rows[i].StudentName() == key;
    }
  }

  lemma KeysOfSnoc(rows: seq<PairedRecord>, p: PairedRecord)
    ensures KeysOf(rows + [p]) == KeysOf(rows) + {p.StudentName()}
  {
    var r := rows + [p];
    forall key | key in KeysOf(r) ensures key in KeysOf(rows) + {p.StudentName()} {
      var i :| 0 <= i < |r| && r[i].StudentName() == key;
      if i < |rows| {
        assert r[i] == rows[i];
      }
    }
    forall key | key in KeysOf(rows) + {p.StudentName()} ensures key in KeysOf(r) {
      if key in KeysOf(rows) {
        var i :| 0 <= i < |rows| && rows[i].StudentName() == key;
        assert r[i] == rows[i];
      } else {
        assert r[|rows|] == p;
      }
    }
  }

  /** The second loop of the pairing: visit every record in scan order and
      append it under the name "?" unless some row already present (a roster
      row, a placeholder or an earlier orphan) carries its key. It appends
      exactly the reference orphan rows for the keys already present. */
  function AppendOrphans(data: seq<ScoreRecord>, rows: seq<PairedRecord>): (r: seq<PairedRecord>)
    ensures r == rows + Orphans(data, KeysOf(rows))
  {
    if data == [] then rows
    else
      var d := data[0];
      HasKeyIff(rows, d.studentName);
      if HasKey(rows, d.studentName) then
        AppendOrphans(data[1..], rows)
      else
        var next := rows + [Paired(OrphanName, d)];
        KeysOfSnoc(rows, Paired(OrphanName, d));
        var r := AppendOrphans(data[1..], next);
        assert r == rows + ([Paired(OrphanName, d)] + Orphans(data[1..], KeysOf(next)));
        r
  }

  /** The paired table: the roster block followed by the orphan rows. */
  function PairScores(data: seq<ScoreRecord>, names: seq<string>): (r: seq<PairedRecord>)
    ensures |names| <= |r|
    ensures forall i :: 0 <= i < |names| ==> r[i] == RosterEntry(data, names[i])
    ensures r[|names|..] == Orphans(data, KeysOf(r[..|names|]))
  {
    var block := RosterBlock(data, names);
    var r := AppendOrphans(data, block);
    assert r[..|names|] == block;
    r
  }

  // ---------------------------------------------------------------------------
  // Properties of the orphan rows
  // ---------------------------------------------------------------------------

  /** Every orphan row copies a record of `data` under the name "?", and its
      key was not among the keys already seen. */
  lemma {:induction false} OrphansShape(data: seq<ScoreRecord>, seen: set<string>)
    ensures forall i :: 0 <= i < |Orphans(data, seen)| ==> IsOrphanOf(Orphans(data, seen)[i], data, seen)
  {
    if data != [] {
      var d := data[0];
      var o := Orphans(data, seen);
      assert data == [d] + data[1..];
      if d.studentName in seen {
        OrphansShape(data[1..], seen);
        forall i | 0 <= i < |o| ensures IsOrphanOf(o[i], data, seen) {
          assert IsOrphanOf(o[i], data[1..], seen);
        }
      } else {
        var seen' := seen + {d.studentName};
        var rest := Orphans(data[1..], seen');
        OrphansShape(data[1..], seen');
        assert o == [Paired(OrphanName, d)] + rest;
        forall i | 0 <= i < |o| ensures IsOrphanOf(o[i], data, seen) {
          if i > 0 {
            assert o[i] == rest[i - 1];
            assert IsOrphanOf(rest[i - 1], data[1..], seen');
          }
        }
      }
    }
  }

  /** `p` copies a record of `data`, whose key is not in `seen`, under the
      name "?". */
  predicate IsOrphanOf(p: PairedRecord, data: seq<ScoreRecord>, seen: set<string>) {
    p.Paired? && p.trueName == OrphanName && p.source in data && p.source.studentName !in seen
  }

  /** No two orphan rows share a key. */
  lemma {:induction false} OrphansDistinct(data: seq<ScoreRecord>, seen: set<string>)
    ensures forall i, j :: 0 <= i < j < |Orphans(data, seen)| ==>
      Orphans(data, seen)[i].StudentName() != Orphans(data, seen)[j].StudentName()
  {
    if data != [] {
      var d := data[0];
      if d.studentName in seen {
        OrphansDistinct(data[1..], seen);
      } else {
        var seen' := seen + {d.studentName};
        var rest := Orphans(data[1..], seen');
        OrphansDistinct(data[1..], seen');
        OrphansShape(data[1..], seen');
        var o := Orphans(data, seen);
        assert o == [Paired(OrphanName, d)] + rest;
        forall i, j | 0 <= i < j < |o| ensures o[i].StudentName() != o[j].StudentName() {
          assert o[j] == rest[j - 1];
          if i > 0 {
            assert o[i] == rest[i - 1];
          }
        }
      }
    }
  }

  /** Every record's key is either among the keys seen beforehand or carried
      by some orphan row. */
  lemma {:induction false} OrphansCover(data: seq<ScoreRecord>, seen: set<string>, m: nat)
    requires m < |data|
    ensures data[m].studentName in seen || exists i :: 0 <= i < |Orphans(data, seen)| && Orphans(data, seen)[i].StudentName() == data[m].studentName
  {
    var d := data[0];
    var o := Orphans(data, seen);
    if d.studentName in seen {
      assert o == Orphans(data[1..], seen);
      if m > 0 {
        OrphansCover(data[1..], seen, m - 1);
        assert data[m] == data[1..][m - 1];
        if data[m].studentName !in seen {
          var i :| 0 <= i < |o| && Orphans(data[1..], seen)[i].StudentName() == data[m].studentName;
          assert o[i].StudentName() == data[m].studentName;
          CoveredAt(data, seen, m, i);
        }
      }
    } else {
      var seen' := seen + {d.studentName};
      var rest := Orphans(data[1..], seen');
      assert o == [Paired(OrphanName, d)] + rest;
      if m == 0 {
        CoveredAt(data, seen, m, 0);
      } else {
        OrphansCover(data[1..], seen', m - 1);
        assert data[m] == data[1..][m - 1];
        if data[m].studentName != d.studentName && data[m].studentName !in seen {
          var i :| 0 <= i < |rest| && rest[i].StudentName() == data[m].studentName;
          assert o[i + 1] == rest[i];
          CoveredAt(data, seen, m, i + 1);
        } else if data[m].studentName == d.studentName {
          CoveredAt(data, seen, m, 0);
        }
      }
    }
  }

  /** Supplies the witness of `OrphansCover`. */
  lemma CoveredAt(data: seq<ScoreRecord>, seen: set<string>, m: nat, i: nat)
    requires m < |data| && i < |Orphans(data, seen)|
    requires Orphans(data, seen)[i].StudentName() == data[m].studentName
    ensures exists i :: 0 <= i < |Orphans(data, seen)| && Orphans(data, seen)[i].StudentName() == data[m].studentName
  {
  }

  /** Each orphan row copies the first record, in scan order, with its key. */
  lemma {:induction false} OrphansAreFirst(data: seq<ScoreRecord>, seen: set<string>, i: nat)
    requires i < |Orphans(data, seen)|
    ensures Orphans(data, seen)[i].Paired?
    ensures exists k :: IsFirstWithKey(data, k, Orphans(data, seen)[i].StudentName())
                   && data[k] == Orphans(data, seen)[i].source
  {
    var d := data[0];
    var o := Orphans(data, seen);
    if d.studentName in seen {
      var rest := Orphans(data[1..], seen);
      assert o == rest;
      OrphansAreFirst(data[1..], seen, i);
      OrphansShape(data[1..], seen);
      assert IsOrphanOf(rest[i], data[1..], seen);
      var k :| IsFirstWithKey(data[1..], k, rest[i].StudentName()) && data[1..][k] == rest[i].source;
      assert IsFirstWithKey(data, k + 1, o[i].StudentName());
    } else {
      var seen' := seen + {d.studentName};
      var rest := Orphans(data[1..], seen');
      assert o == [Paired(OrphanName, d)] + rest;
      if i == 0 {
        assert IsFirstWithKey(data, 0, o[0].StudentName());
      } else {
        assert o[i] == rest[i - 1];
        OrphansAreFirst(data[1..], seen', i - 1);
        OrphansShape(data[1..], seen');
        assert IsOrphanOf(rest[i - 1], data[1..], seen');
        var k :| IsFirstWithKey(data[1..], k, rest[i - 1].StudentName()) && data[1..][k] == rest[i - 1].source;
        assert IsFirstWithKey(data, k + 1, o[i].StudentName());
      }
    }
  }

  /** The orphan rows copy their records in scan order. */
  lemma {:induction false} OrphansInScanOrder(data: seq<ScoreRecord>, seen: set<string>)
    ensures IsSubsequence(Sources(Orphans(data, seen)), data)
  {
    if data != [] {
      var d := data[0];
      assert data == [d] + data[1..];
      if d.studentName in seen {
        OrphansInScanOrder(data[1..], seen);
        SubsequenceCons(d, Sources(Orphans(data[1..], seen)), data[1..]);
      } else {
        var rest := Orphans(data[1..], seen + {d.studentName});
        OrphansInScanOrder(data[1..], seen + {d.studentName});
        assert Sources([Paired(OrphanName, d)] + rest) == [d] + Sources(rest) by {
          assert ([Paired(OrphanName, d)] + rest)[1..] == rest;
        }
        SubsequenceKeep(d, Sources(rest), data[1..]);
      }
    }
  }

  /** The records that the `Paired` rows of `rows` copy, in row order. */
  function Sources(rows: seq<PairedRecord>): seq<ScoreRecord>
  {
    if rows == [] then []
    else (if rows[0].Paired? then [rows[0].source] else []) + Sources(rows[1..])
  }

  // ---------------------------------------------------------------------------
  // Properties of the paired table
  // ---------------------------------------------------------------------------

  /** A row after the roster block is an orphan: a copy of a record under the
      name "?", whose key no row before it carries, so in particular it is
      the compact key of no roster name. */
  lemma OrphanRowIsUnclaimed(data: seq<ScoreRecord>, names: seq<string>, j: nat)
    requires |names| <= j < |PairScores(data, names)|
    ensures var r := PairScores(data, names);
      && r[j].Paired? && r[j].trueName == OrphanName && r[j].source in data
      && (forall i :: 0 <= i < j ==> r[i].StudentName() != r[j].StudentName())
      && (forall i :: 0 <= i < |names| ==> r[j].StudentName() != CompactName(names[i]))
  {
    var r := PairScores(data, names);
    var block := r[..|names|];
    var o := r[|names|..];
    OrphansShape(data, KeysOf(block));
    OrphansDistinct(data, KeysOf(block));
    assert o[j - |names|] == r[j];
    forall i | 0 <= i < j ensures r[i].StudentName() != r[j].StudentName() {
      if i < |names| {
        assert r[i] == block[i];
      } else {
        assert r[i] == o[i - |names|];
      }
    }
    forall i | 0 <= i < |names| ensures r[j].StudentName() != CompactName(names[i]) {
      assert r[i] == block[i];
    }
  }

  /** Every record's key shows up somewhere in the paired table. */
  lemma EveryKeyAppears(data: seq<ScoreRecord>, names: seq<string>, m: nat)
    requires m < |data|
    ensures exists i :: 0 <= i < |PairScores(data, names)| && PairScores(data, names)[i].StudentName() == data[m].studentName
  {
    var r := PairScores(data, names);
    var block := r[..|names|];
    OrphansCover(data, KeysOf(block), m);
    if data[m].studentName in KeysOf(block) {
      var i :| 0 <= i < |block| && block[i].StudentName() == data[m].studentName;
      assert r[i] == block[i];
    } else {
      var o := r[|names|..];
      var i :| 0 <= i < |o| && o[i].StudentName() == data[m].studentName;
      assert r[|names| + i] == o[i];
    }
  }

  /** The table has no orphan rows exactly when every record's key is carried
      by some roster row. */
  lemma NoOrphansIff(data: seq<ScoreRecord>, names: seq<string>)
    ensures |PairScores(data, names)| == |names| <==>
      forall m :: 0 <= m < |data| ==> data[m].studentName in KeysOf(RosterBlock(data, names))
  {
    var r := PairScores(data, names);
    var block := RosterBlock(data, names);
    assert r[..|names|] == block;
    if |r| == |names| {
      forall m | 0 <= m < |data| ensures data[m].studentName in KeysOf(block) {
        OrphansCover(data, KeysOf(block), m);
      }
    } else {
      OrphansShape(data, KeysOf(block));
      var o := r[|names|..];
      assert o[0].source in data;
    }
  }

  /** When every record's key is the compact key of some roster name, the
      table is exactly the roster block. */
  lemma AllMatchedNoOrphans(data: seq<ScoreRecord>, names: seq<string>)
    requires forall m :: 0 <= m < |data| ==> exists i :: 0 <= i < |names| && data[m].studentName == CompactName(names[i])
    ensures PairScores(data, names) == RosterBlock(data, names)
  {
    var block := RosterBlock(data, names);
    forall m | 0 <= m < |data| ensures data[m].studentName in KeysOf(block) {
      var i :| 0 <= i < |names| && data[m].studentName == CompactName(names[i]);
      MatchedKeyInBlock(data, names, m, i);
    }
    NoOrphansIff(data, names);
    PairScoresIsBlock(data, names);
  }

  /** A record keyed by some roster name's compact key is claimed by that
      name's row. */
  lemma MatchedKeyInBlock(data: seq<ScoreRecord>, names: seq<string>, m: nat, i: nat)
    requires m < |data| && i < |names| && data[m].studentName == CompactName(names[i])
    ensures data[m].studentName in KeysOf(RosterBlock(data, names))
  {
    var block := RosterBlock(data, names);
    assert block[i].StudentName() == data[m].studentName;
  }

  /** A table with no orphan rows is the roster block. */
  lemma PairScoresIsBlock(data: seq<ScoreRecord>, names: seq<string>)
    requires |PairScores(data, names)| == |names|
    ensures PairScores(data, names) == RosterBlock(data, names)
  {
    var r := PairScores(data, names);
    assert r == r[..|names|];
  }

  /** A record whose key no roster row carries is listed once, under "?", if
      it is the first record with that key. */
  lemma UnclaimedRecordIsListed(data: seq<ScoreRecord>, names: seq<string>, k: nat)
    requires k < |data| && IsFirstWithKey(data, k, data[k].studentName)
    requires data[k].studentName !in KeysOf(RosterBlock(data, names))
    ensures exists j :: |names| <= j < |PairScores(data, names)| && PairScores(data, names)[j] == Paired(OrphanName, data[k])
  {
    var r := PairScores(data, names);
    var block := RosterBlock(data, names);
    assert r[..|names|] == block;
    var o := r[|names|..];
    OrphansCover(data, KeysOf(block), k);
    var i :| 0 <= i < |o| && o[i].StudentName() == data[k].studentName;
    OrphansShape(data, KeysOf(block));
    OrphansAreFirst(data, KeysOf(block), i);
    var k' :| IsFirstWithKey(data, k', o[i].StudentName()) && data[k'] == o[i].source;
    assert k' == k;
    assert r[|names| + i] == o[i];
  }

  /** A placeholder row has the empty key, so as soon as one roster name is
      unmatched, records with an empty submission key (file names starting
      with an underscore) are never listed as orphans. */
  lemma EmptyKeyHiddenByPlaceholder(data: seq<ScoreRecord>, names: seq<string>, i: nat)
    requires i < |names| && RosterEntry(data, names[i]).MissingStudent?
    ensures forall j :: |names| <= j < |PairScores(data, names)| ==> PairScores(data, names)[j].StudentName() != ""
  {
    var r := PairScores(data, names);
    forall j | |names| <= j < |r| ensures r[j].StudentName() != "" {
      OrphanRowIsUnclaimed(data, names, j);
      assert r[i].StudentName() == "";
    }
  }
}
