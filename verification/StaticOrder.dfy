/** The static table is in order: by name, and entries with one name by value. No two of its entries
    could be exchanged. */
module StaticOrder {
  import opened Bytes
  import opened HeaderTable

  /** `a` comes before `b`: they part at byte `i`. A text that ends there comes first if `short`
      says so, else last. */
  predicate PartAt(a: seq<byte>, b: seq<byte>, short: bool, i: nat) {
    && i <= |a| && i <= |b| && a[..i] == b[..i]
    && if i == |a| then short && i < |b| else if i == |b| then !short else a[i] < b[i]
  }

  ghost predicate Precedes(a: seq<byte>, b: seq<byte>, short: bool) {
    exists i: nat :: PartAt(a, b, short, i)
  }

  /** Names come behind those that continue them, as in "accept-ranges", "accept"; values before
      those that continue them, as in "http", "https". */
  ghost predicate Ordered(g: Header, h: Header) {
    Precedes(g.name, h.name, false) || (g.name == h.name && Precedes(g.value, h.value, true))
  }

  lemma PrecedesTransitive(a: seq<byte>, b: seq<byte>, c: seq<byte>, short: bool)
    requires Precedes(a, b, short) && Precedes(b, c, short)
    ensures Precedes(a, c, short)
  {
    var i: nat :| PartAt(a, b, short, i);
    var j: nat :| PartAt(b, c, short, j);
    var k := if i < j then i else j;
    assert a[..k] == a[..i][..k] == b[..i][..k] == b[..k] == b[..j][..k] == c[..j][..k] == c[..k];
    if i < j {
      assert b[i] == b[..j][i] == c[..j][i] == c[i];
    } else if j < i {
      assert a[j] == a[..i][j] == b[..i][j] == b[j];
    }
    assert PartAt(a, c, short, k);
  }

  lemma NotBeforeItself(a: seq<byte>, short: bool)
    ensures !Precedes(a, a, short)
  {
  }

  lemma OrderedTransitive(f: Header, g: Header, h: Header)
    requires Ordered(f, g) && Ordered(g, h)
    ensures Ordered(f, h)
  {
    hide Precedes;
    if Precedes(f.name, g.name, false) && Precedes(g.name, h.name, false) {
      PrecedesTransitive(f.name, g.name, h.name, false);
    }
    if Precedes(f.value, g.value, true) && Precedes(g.value, h.value, true) {
      PrecedesTransitive(f.value, g.value, h.value, true);
    }
  }

  predicate TextPartsAt(a: string, b: string, short: bool, i: nat) {
    && i <= |a| && i <= |b| && (forall j :: 0 <= j < i ==> a[j] == b[j])
    && if i == |a| then short && i < |b| else if i == |b| then !short else a[i] as int % 0x100 < b[i] as int % 0x100
  }

  lemma TextPrecedes(a: string, b: string, short: bool, i: nat)
    requires TextPartsAt(a, b, short, i)
    ensures Precedes(Ascii(a), Ascii(b), short)
  {
    assert Ascii(a)[..i] == Ascii(b)[..i];
    assert PartAt(Ascii(a), Ascii(b), short, i);
  }

  lemma ByName(name: string, value: string, name2: string, value2: string, i: nat)
    requires TextPartsAt(name, name2, false, i)
    ensures Ordered(Text(name, value), Text(name2, value2))
  {
    TextPrecedes(name, name2, false, i);
  }

  lemma ByValue(name: string, value: string, value2: string, i: nat)
    requires TextPartsAt(value, value2, true, i)
    ensures Ordered(Text(name, value), Text(name, value2))
  {
    TextPrecedes(value, value2, true, i);
  }

  lemma PseudoFrom1(i: nat)
    requires 1 <= i < 5
    ensures Ordered(PSEUDO_HEADERS[i], PSEUDO_HEADERS[i + 1])
  {
    hide Ordered;
    match i
    case 1 => ByName(":authority", "", ":method", "GET", 1);
    case 2 => ByValue(":method", "GET", "POST", 0);
    case 3 => ByName(":method", "POST", ":path", "/", 1);
    case _ => ByValue(":path", "/", "/index.html", 1);
  }

  lemma PseudoFrom5(i: nat)
    requires 5 <= i < 9
    ensures Ordered(PSEUDO_HEADERS[i], PSEUDO_HEADERS[i + 1])
  {
    hide Ordered;
    match i
    case 5 => ByName(":path", "/index.html", ":scheme", "http", 1);
    case 6 => ByValue(":scheme", "http", "https", 4);
    case 7 => ByName(":scheme", "https", ":status", "200", 2);
    case _ => ByValue(":status", "200", "204", 2);
  }

  lemma PseudoFrom9(i: nat)
    requires 9 <= i < 13
    ensures Ordered(PSEUDO_HEADERS[i], PSEUDO_HEADERS[i + 1])
  {
    hide Ordered;
    match i
    case 9 => ByValue(":status", "204", "206", 2);
    case 10 => ByValue(":status", "206", "304", 0);
    case 11 => ByValue(":status", "304", "400", 0);
    case _ => ByValue(":status", "400", "404", 2);
  }

  lemma PseudoFrom13(i: nat)
    requires 13 <= i < 14
    ensures Ordered(PSEUDO_HEADERS[i], PSEUDO_HEADERS[i + 1])
  {
    hide Ordered;
    match i
    case _ => ByValue(":status", "404", "500", 0);
  }

  lemma PseudoOrdered(i: nat)
    requires 1 <= i < 14
    ensures Ordered(PSEUDO_HEADERS[i], PSEUDO_HEADERS[i + 1])
  {
    hide Ordered;
    if i < 5 {
      PseudoFrom1(i);
    } else if i < 9 {
      PseudoFrom5(i);
    } else if i < 13 {
      PseudoFrom9(i);
    } else {
      PseudoFrom13(i);
    }
  }

  lemma AFrom0(i: nat)
    requires 0 <= i < 4
    ensures Ordered(A_HEADERS[i], A_HEADERS[i + 1])
  {
    hide Ordered;
    match i
    case 0 => ByName("accept-charset", "", "accept-encoding", "gzip, deflate", 7);
    case 1 => ByName("accept-encoding", "gzip, deflate", "accept-language", "", 7);
    case 2 => ByName("accept-language", "", "accept-ranges", "", 7);
    case _ => ByName("accept-ranges", "", "accept", "", 6);
  }

  lemma AFrom4(i: nat)
    requires 4 <= i < 8
    ensures Ordered(A_HEADERS[i], A_HEADERS[i + 1])
  {
    hide Ordered;
    match i
    case 4 => ByName("accept", "", "access-control-allow-origin", "", 4);
    case 5 => ByName("access-control-allow-origin", "", "age", "", 1);
    case 6 => ByName("age", "", "allow", "", 1);
    case _ => ByName("allow", "", "authorization", "", 1);
  }

  lemma AOrdered(i: nat)
    requires 0 <= i < 8
    ensures Ordered(A_HEADERS[i], A_HEADERS[i + 1])
  {
    hide Ordered;
    if i < 4 {
      AFrom0(i);
    } else {
      AFrom4(i);
    }
  }

  lemma CFrom0(i: nat)
    requires 0 <= i < 4
    ensures Ordered(C_HEADERS[i], C_HEADERS[i + 1])
  {
    hide Ordered;
    match i
    case 0 => ByName("cache-control", "", "content-disposition", "", 1);
    case 1 => ByName("content-disposition", "", "content-encoding", "", 8);
    case 2 => ByName("content-encoding", "", "content-language", "", 8);
    case _ => ByName("content-language", "", "content-length", "", 9);
  }

  lemma CFrom4(i: nat)
    requires 4 <= i < 8
    ensures Ordered(C_HEADERS[i], C_HEADERS[i + 1])
  {
    hide Ordered;
    match i
    case 4 => ByName("content-length", "", "content-location", "", 9);
    case 5 => ByName("content-location", "", "content-range", "", 8);
    case 6 => ByName("content-range", "", "content-type", "", 8);
    case _ => ByName("content-type", "", "cookie", "", 2);
  }

  lemma COrdered(i: nat)
    requires 0 <= i < 8
    ensures Ordered(C_HEADERS[i], C_HEADERS[i + 1])
  {
    hide Ordered;
    if i < 4 {
      CFrom0(i);
    } else {
      CFrom4(i);
    }
  }

  lemma DToIFrom0(i: nat)
    requires 0 <= i < 4
    ensures Ordered(D_TO_I_HEADERS[i], D_TO_I_HEADERS[i + 1])
  {
    hide Ordered;
    match i
    case 0 => ByName("date", "", "etag", "", 0);
    case 1 => ByName("etag", "", "expect", "", 1);
    case 2 => ByName("expect", "", "expires", "", 3);
    case _ => ByName("expires", "", "from", "", 0);
  }

  lemma DToIFrom4(i: nat)
    requires 4 <= i < 8
    ensures Ordered(D_TO_I_HEADERS[i], D_TO_I_HEADERS[i + 1])
  {
    hide Ordered;
    match i
    case 4 => ByName("from", "", "host", "", 0);
    case 5 => ByName("host", "", "if-match", "", 0);
    case 6 => ByName("if-match", "", "if-modified-since", "", 4);
    case _ => ByName("if-modified-since", "", "if-none-match", "", 3);
  }

  lemma DToIFrom8(i: nat)
    requires 8 <= i < 10
    ensures Ordered(D_TO_I_HEADERS[i], D_TO_I_HEADERS[i + 1])
  {
    hide Ordered;
    match i
    case 8 => ByName("if-none-match", "", "if-range", "", 3);
    case _ => ByName("if-range", "", "if-unmodified-since", "", 3);
  }

  lemma DToIOrdered(i: nat)
    requires 0 <= i < 10
    ensures Ordered(D_TO_I_HEADERS[i], D_TO_I_HEADERS[i + 1])
  {
    hide Ordered;
    if i < 4 {
      DToIFrom0(i);
    } else if i < 8 {
      DToIFrom4(i);
    } else {
      DToIFrom8(i);
    }
  }

  lemma LToRFrom0(i: nat)
    requires 0 <= i < 4
    ensures Ordered(L_TO_R_HEADERS[i], L_TO_R_HEADERS[i + 1])
  {
    hide Ordered;
    match i
    case 0 => ByName("last-modified", "", "link", "", 1);
    case 1 => ByName("link", "", "location", "", 1);
    case 2 => ByName("location", "", "max-forwards", "", 0);
    case _ => ByName("max-forwards", "", "proxy-authenticate", "", 0);
  }

  lemma LToRFrom4(i: nat)
    requires 4 <= i < 8
    ensures Ordered(L_TO_R_HEADERS[i], L_TO_R_HEADERS[i + 1])
  {
    hide Ordered;
    match i
    case 4 => ByName("proxy-authenticate", "", "proxy-authorization", "", 10);
    case 5 => ByName("proxy-authorization", "", "range", "", 0);
    case 6 => ByName("range", "", "referer", "", 1);
    case _ => ByName("referer", "", "refresh", "", 3);
  }

  lemma LToRFrom8(i: nat)
    requires 8 <= i < 9
    ensures Ordered(L_TO_R_HEADERS[i], L_TO_R_HEADERS[i + 1])
  {
    hide Ordered;
    match i
    case _ => ByName("refresh", "", "retry-after", "", 2);
  }

  lemma LToROrdered(i: nat)
    requires 0 <= i < 9
    ensures Ordered(L_TO_R_HEADERS[i], L_TO_R_HEADERS[i + 1])
  {
    hide Ordered;
    if i < 4 {
      LToRFrom0(i);
    } else if i < 8 {
      LToRFrom4(i);
    } else {
      LToRFrom8(i);
    }
  }

  lemma SToWFrom0(i: nat)
    requires 0 <= i < 4
    ensures Ordered(S_TO_W_HEADERS[i], S_TO_W_HEADERS[i + 1])
  {
    hide Ordered;
    match i
    case 0 => ByName("server", "", "set-cookie", "", 2);
    case 1 => ByName("set-cookie", "", "strict-transport-security", "", 1);
    case 2 => ByName("strict-transport-security", "", "transfer-encoding", "", 0);
    case _ => ByName("transfer-encoding", "", "user-agent", "", 0);
  }

  lemma SToWFrom4(i: nat)
    requires 4 <= i < 7
    ensures Ordered(S_TO_W_HEADERS[i], S_TO_W_HEADERS[i + 1])
  {
    hide Ordered;
    match i
    case 4 => ByName("user-agent", "", "vary", "", 0);
    case 5 => ByName("vary", "", "via", "", 1);
    case _ => ByName("via", "", "www-authenticate", "", 0);
  }

  lemma SToWOrdered(i: nat)
    requires 0 <= i < 7
    ensures Ordered(S_TO_W_HEADERS[i], S_TO_W_HEADERS[i + 1])
  {
    hide Ordered;
    if i < 4 {
      SToWFrom0(i);
    } else {
      SToWFrom4(i);
    }
  }

  lemma Rows()
    ensures forall i :: 1 <= i <= 14 ==> StaticTable()[i] == PSEUDO_HEADERS[i]
    ensures forall i :: 15 <= i <= 23 ==> StaticTable()[i] == A_HEADERS[i - 15]
    ensures forall i :: 24 <= i <= 32 ==> StaticTable()[i] == C_HEADERS[i - 24]
    ensures forall i :: 33 <= i <= 43 ==> StaticTable()[i] == D_TO_I_HEADERS[i - 33]
    ensures forall i :: 44 <= i <= 53 ==> StaticTable()[i] == L_TO_R_HEADERS[i - 44]
    ensures forall i :: 54 <= i <= 61 ==> StaticTable()[i] == S_TO_W_HEADERS[i - 54]
  {
    RowLengths();
    hide PSEUDO_HEADERS, A_HEADERS, C_HEADERS, D_TO_I_HEADERS, L_TO_R_HEADERS, S_TO_W_HEADERS;
  }

  lemma RowLengths()
    ensures |PSEUDO_HEADERS| == 15 && |A_HEADERS| == 9 && |C_HEADERS| == 9
    ensures |D_TO_I_HEADERS| == 11 && |L_TO_R_HEADERS| == 10 && |S_TO_W_HEADERS| == 8
  {
  }

  lemma Neighbours(i: nat)
    requires 1 <= i < 61
    ensures Ordered(StaticTable()[i], StaticTable()[i + 1])
  {
    hide Ordered, StaticTable;
    Rows();
    RowEnds();
    hide PSEUDO_HEADERS, A_HEADERS, C_HEADERS, D_TO_I_HEADERS, L_TO_R_HEADERS, S_TO_W_HEADERS;
    if i < 14 {
      PseudoOrdered(i);
    } else if i == 14 {
      ByName(":status", "500", "accept-charset", "", 0);
    } else if i < 23 {
      AOrdered(i - 15);
    } else if i == 23 {
      ByName("authorization", "", "cache-control", "", 0);
    } else if i < 32 {
      COrdered(i - 24);
    } else if i == 32 {
      ByName("cookie", "", "date", "", 0);
    } else if i < 43 {
      DToIOrdered(i - 33);
    } else if i == 43 {
      ByName("if-unmodified-since", "", "last-modified", "", 0);
    } else if i < 53 {
      LToROrdered(i - 44);
    } else if i == 53 {
      ByName("retry-after", "", "server", "", 0);
    } else {
      SToWOrdered(i - 54);
    }
  }

  lemma RowEnds()
    ensures PSEUDO_HEADERS[14] == Text(":status", "500") && A_HEADERS[0] == Text("accept-charset", "")
    ensures A_HEADERS[8] == Text("authorization", "") && C_HEADERS[0] == Text("cache-control", "")
    ensures C_HEADERS[8] == Text("cookie", "") && D_TO_I_HEADERS[0] == Text("date", "")
    ensures D_TO_I_HEADERS[10] == Text("if-unmodified-since", "") && L_TO_R_HEADERS[0] == Text("last-modified", "")
    ensures L_TO_R_HEADERS[9] == Text("retry-after", "") && S_TO_W_HEADERS[0] == Text("server", "")
  {
  }

  /** Entries 1 to 61 are in strict order, so that each has its place. */
  lemma {:induction false} StaticTableOrdered(i: nat, j: nat)
    requires 1 <= i < j <= 61
    ensures Ordered(StaticTable()[i], StaticTable()[j])
    ensures StaticTable()[i] != StaticTable()[j]
  {
    hide Ordered, StaticTable;
    if i < j - 1 {
      StaticTableOrdered(i, j - 1);
      Neighbours(j - 1);
      OrderedTransitive(StaticTable()[i], StaticTable()[j - 1], StaticTable()[j]);
    } else {
      Neighbours(i);
    }
    NotOrderedToItself(StaticTable()[i]);
  }

  lemma NotOrderedToItself(h: Header)
    ensures !Ordered(h, h)
  {
    NotBeforeItself(h.name, false);
    NotBeforeItself(h.value, true);
  }
}
