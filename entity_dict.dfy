/** The entity dictionary builder (`extract_entities`): the text's dates, e-mail
    addresses, URLs and IP addresses, each under a short id derived from the
    matched string. The four regular-expression scans are not modelled; their
    results, in text order, are the input `Found`. */
module EntityDict {
  import opened Common

  datatype EntityKind = Date | Email | Url | Ip

  /** The four `re.findall` results. */
  datatype Found = Found(dates: seq<string>, emails: seq<string>, urls: seq<string>, ips: seq<string>)

  /** One dictionary entry; `frequency` and `count` are both the number of matches
      equal to `original`. */
  datatype Entry = Entry(original: string, kind: EntityKind, frequency: nat, count: nat)

  function MatchesOf(f: Found, kind: EntityKind): seq<string>
  {
    match kind
    case Date => f.dates
    case Email => f.emails
    case Url => f.urls
    case Ip => f.ips
  }

  /** What each scan guarantees about the strings it returns and the id derivation
      relies on: an address has an `@`, an IP address four dot-separated parts. */
  predicate WellFormed(kind: EntityKind, m: string)
  {
    match kind
    case Email => '@' in m
    case Ip => |Split(m, '.')| >= 4
    case _ => true
  }

  predicate AllWellFormed(f: Found)
  {
    (forall m | m in f.emails :: WellFormed(Email, m)) &&
    (forall m | m in f.ips :: WellFormed(Ip, m))
  }

  /** `D:` and the date without its dashes. */
  function DateId(date: string): string
  {
    "D:" + RemoveChar(date, '-')
  }

  /** `E:`, at most three characters of the local part, at most four of the first
      domain label. */
  function EmailId(email: string): string
    requires '@' in email
  {
    var parts := Split(email, '@');
    "E:" + Take(parts[0], 3) + Take(Split(parts[1], '.')[0], 4)
  }

  /** `re.search(r'://([^/]+)', url)`: after the first `://` that is followed by a
      character other than `/`, the longest run of such characters. */
  function FindHost(url: string): (host: Option<string>)
    ensures host.Some? ==> host.value != "" && '/' !in host.value
  {
    if |url| < 4 then None
    else if url[..3] == "://" && url[3] != '/' then Some(Split(url[3..], '/')[0])
    else FindHost(url[1..])
  }

  /** `s.replace('www.', '')` */
  function RemoveWww(s: string): string
  {
    if |s| >= 4 && s[..4] == "www." then RemoveWww(s[4..])
    else if s == [] then []
    else [s[0]] + RemoveWww(s[1..])
  }

  /** `U:` and at most six characters of the host's first label once every `www.`
      is removed; a URL in which no host can be found gets no entry. */
  function UrlId(url: string): Option<string>
  {
    match FindHost(url)
    case None => None
    case Some(host) => Some("U:" + Take(Split(RemoveWww(host), '.')[0], 6))
  }

  /** `IP:`, the first octet and the last. */
  function IpId(ip: string): string
    requires |Split(ip, '.')| >= 4
  {
    var parts := Split(ip, '.');
    "IP:" + parts[0] + parts[3]
  }

  function IdFor(kind: EntityKind, m: string): (id: Option<string>)
    requires WellFormed(kind, m)
    ensures id.Some? ==> |id.value| >= 2 && KindOfId(id.value) == Some(kind)
  {
    match kind
    case Date => Some(DateId(m))
    case Email => Some(EmailId(m))
    case Url => UrlId(m)
    case Ip => Some(IpId(m))
  }

  /** The prefix `extract_entities` puts before each kind's ids. */
  function KindPrefix(kind: EntityKind): string
  {
    match kind
    case Date => "D:"
    case Email => "E:"
    case Url => "U:"
    case Ip => "IP:"
  }

  /** Every id begins with its kind's whole prefix, `D:`, `E:`, `U:` or `IP:`. */
  lemma IdPrefix(kind: EntityKind, m: string)
    requires WellFormed(kind, m)
    ensures IdFor(kind, m).Some? ==>
              |KindPrefix(kind)| <= |IdFor(kind, m).value| &&
              IdFor(kind, m).value[..|KindPrefix(kind)|] == KindPrefix(kind)
  {
    match kind
    case Date =>
      assert DateId(m) == "D:" + RemoveChar(m, '-');
    case Email =>
      var parts := Split(m, '@');
      assert EmailId(m) == "E:" + (Take(parts[0], 3) + Take(Split(parts[1], '.')[0], 4));
    case Url =>
      if FindHost(m).Some? {
        var host := FindHost(m).value;
        assert UrlId(m).value == "U:" + Take(Split(RemoveWww(host), '.')[0], 6);
      }
    case Ip =>
      var parts := Split(m, '.');
      assert IpId(m) == "IP:" + (parts[0] + parts[3]);
  }

  /** Every id starts with its kind's own letter, so ids of different kinds never
      meet in the one dictionary. */
  function KindOfId(id: string): Option<EntityKind>
  {
    if id == [] then None
    else if id[0] == 'D' then Some(Date)
    else if id[0] == 'E' then Some(Email)
    else if id[0] == 'U' then Some(Url)
    else if id[0] == 'I' then Some(Ip)
    else None
  }

  /** The ids the strings of `ms` give. */
  function IdsIn(kind: EntityKind, ms: set<string>): set<string>
  {
    set m | m in ms && WellFormed(kind, m) && IdFor(kind, m).Some? :: IdFor(kind, m).value
  }

  lemma IdsInAdd(kind: EntityKind, ms: set<string>, m: string)
    requires WellFormed(kind, m)
    ensures IdsIn(kind, ms + {m}) ==
            IdsIn(kind, ms) + (if IdFor(kind, m).Some? then {IdFor(kind, m).value} else {})
  {
  }

  lemma IdsInKind(kind: EntityKind, ms: set<string>)
    ensures forall id | id in IdsIn(kind, ms) :: KindOfId(id) == Some(kind)
  {
  }

  function Elements(ms: seq<string>): set<string>
  {
    set m | m in ms
  }

  /** `e` is an entry the loop over `matches` may leave under `id`: one of the
      matches that gives this id, counted in full. */
  predicate Describes(kind: EntityKind, matches: seq<string>, id: string, e: Entry)
  {
    e.kind == kind && e.original in matches && WellFormed(kind, e.original) &&
    IdFor(kind, e.original) == Some(id) &&
    e.count == Count(matches, e.original) && e.frequency == e.count
  }

  /** The state of a loop over `matches` once the matches in `done` are stored. */
  predicate Stored(r: map<string, Entry>, entities: map<string, Entry>, kind: EntityKind,
                   matches: seq<string>, done: set<string>)
  {
    StoredIds(r, entities, kind, matches, IdsIn(kind, done))
  }

  /** The entries under `ids` describe their matches; every other entry is unchanged. */
  predicate StoredIds(r: map<string, Entry>, entities: map<string, Entry>, kind: EntityKind,
                      matches: seq<string>, ids: set<string>)
  {
    r.Keys == entities.Keys + ids &&
    (forall id | id in r && id !in ids :: r[id] == entities[id]) &&
    (forall id | id in ids :: Describes(kind, matches, id, r[id]))
  }

  lemma StoreStep(r: map<string, Entry>, entities: map<string, Entry>, kind: EntityKind,
                  matches: seq<string>, done: set<string>, m: string)
    requires Stored(r, entities, kind, matches, done)
    requires m in matches && WellFormed(kind, m)
    ensures var found := IdFor(kind, m);
            var c := Count(matches, m);
            Stored(if found.Some? then r[found.value := Entry(m, kind, c, c)] else r,
                   entities, kind, matches, done + {m})
  {
    IdsInAdd(kind, done, m);
    var found := IdFor(kind, m);
    if found.Some? {
      var c := Count(matches, m);
      StoreOne(r, entities, kind, matches, done, m, found.value, Entry(m, kind, c, c));
    }
  }

  lemma StoreOne(r: map<string, Entry>, entities: map<string, Entry>, kind: EntityKind,
                 matches: seq<string>, done: set<string>, m: string, id: string, e: Entry)
    requires Stored(r, entities, kind, matches, done)
    requires IdsIn(kind, done + {m}) == IdsIn(kind, done) + {id}
    requires Describes(kind, matches, id, e)
    ensures Stored(r[id := e], entities, kind, matches, done + {m})
  {
    StoredAdd(r, entities, kind, matches, IdsIn(kind, done), IdsIn(kind, done + {m}), id, e);
  }

  lemma StoredAdd(r: map<string, Entry>, entities: map<string, Entry>, kind: EntityKind, matches: seq<string>,
                  before: set<string>, after: set<string>, id: string, e: Entry)
    requires StoredIds(r, entities, kind, matches, before)
    requires after == before + {id}
    requires Describes(kind, matches, id, e)
    ensures StoredIds(r[id := e], entities, kind, matches, after)
  {
    var r' := r[id := e];
    KeysAdd(r, entities.Keys, before, id, e);
    forall x | x in r' && x !in after
      ensures r'[x] == entities[x]
    {
      assert x != id && x !in before;
    }
    forall x | x in after
      ensures Describes(kind, matches, x, r'[x])
    {
      if x != id {
        assert x in before;
      }
    }
  }

  lemma KeysAdd(r: map<string, Entry>, kept: set<string>, before: set<string>, id: string, e: Entry)
    requires r.Keys == kept + before
    ensures r[id := e].Keys == kept + (before + {id})
  {
  }

  /** One turn of the loop: the entry of match `m`, if `m` gives an id, under that id. */
  method StoreMatch(r: map<string, Entry>, ghost entities: map<string, Entry>, kind: EntityKind,
                    matches: seq<string>, ghost done: set<string>, m: string)
    returns (r': map<string, Entry>)
    requires Stored(r, entities, kind, matches, done)
    requires m in matches && WellFormed(kind, m)
    ensures Stored(r', entities, kind, matches, done + {m})
  {
    StoreStep(r, entities, kind, matches, done, m);
    var found := IdFor(kind, m);
    r' := r;
    if found.Some? {
      var c := Count(matches, m);
      r' := r[found.value := Entry(m, kind, c, c)];
    }
  }

  /** One of the four loops: for each distinct match, in an unspecified order (a
      Python `set`), store its entry under its id, replacing what is there. */
  method AddKind(entities: map<string, Entry>, kind: EntityKind, matches: seq<string>)
    returns (r: map<string, Entry>)
    requires forall m | m in matches :: WellFormed(kind, m)
    ensures StoredIds(r, entities, kind, matches, IdsIn(kind, Elements(matches)))
  {
    r := entities;
    var todo := Elements(matches);
    ghost var done: set<string> := {};
    while todo != {}
      invariant todo + done == Elements(matches) && todo !! done
      invariant Stored(r, entities, kind, matches, done)
      decreases |todo|
    {
      var m :| m in todo;
      r := StoreMatch(r, entities, kind, matches, done, m);
      todo := todo - {m};
      done := done + {m};
    }
  }

  /** `extract_entities`: dates, then addresses, then URLs, then IP addresses. */
  method ExtractEntities(f: Found) returns (entities: map<string, Entry>)
    requires AllWellFormed(f)
    ensures entities.Keys == IdsIn(Date, Elements(f.dates)) + IdsIn(Email, Elements(f.emails))
                            + IdsIn(Url, Elements(f.urls)) + IdsIn(Ip, Elements(f.ips))
    ensures forall id | id in entities ::
              KindOfId(id) == Some(entities[id].kind) &&
              Describes(entities[id].kind, MatchesOf(f, entities[id].kind), id, entities[id])
    ensures f == Found([], [], [], []) ==> entities == map[]
  {
    IdsInKind(Date, Elements(f.dates));
    IdsInKind(Email, Elements(f.emails));
    IdsInKind(Url, Elements(f.urls));
    IdsInKind(Ip, Elements(f.ips));
    var dates := AddKind(map[], Date, f.dates);
    var emails := AddKind(dates, Email, f.emails);
    var urls := AddKind(emails, Url, f.urls);
    entities := AddKind(urls, Ip, f.ips);
    AllKinds(f, dates, emails, urls, entities, IdsIn(Date, Elements(f.dates)), IdsIn(Email, Elements(f.emails)),
             IdsIn(Url, Elements(f.urls)), IdsIn(Ip, Elements(f.ips)));
    if f == Found([], [], [], []) {
      NoIds(Date);
      NoIds(Email);
      NoIds(Url);
      NoIds(Ip);
    }
  }

  /** The four loops in a row: each kind's ids keep the entries their own loop
      stored, because the ids of different kinds differ. */
  lemma AllKinds(f: Found, dates: map<string, Entry>, emails: map<string, Entry>, urls: map<string, Entry>,
                 ips: map<string, Entry>, d: set<string>, e: set<string>, u: set<string>, i: set<string>)
    requires (forall id | id in d :: KindOfId(id) == Some(Date)) && (forall id | id in e :: KindOfId(id) == Some(Email))
    requires (forall id | id in u :: KindOfId(id) == Some(Url)) && (forall id | id in i :: KindOfId(id) == Some(Ip))
    requires StoredIds(dates, map[], Date, f.dates, d) && StoredIds(emails, dates, Email, f.emails, e)
    requires StoredIds(urls, emails, Url, f.urls, u) && StoredIds(ips, urls, Ip, f.ips, i)
    ensures ips.Keys == d + e + u + i
    ensures forall id | id in ips ::
              KindOfId(id) == Some(ips[id].kind) && Describes(ips[id].kind, MatchesOf(f, ips[id].kind), id, ips[id])
  {
    forall id | id in ips
      ensures KindOfId(id) == Some(ips[id].kind) && Describes(ips[id].kind, MatchesOf(f, ips[id].kind), id, ips[id])
    {
      if id in i {
      } else if id in u {
        assert ips[id] == urls[id];
      } else if id in e {
        assert ips[id] == urls[id] == emails[id];
      } else {
        assert ips[id] == urls[id] == emails[id] == dates[id];
      }
    }
  }

  lemma NoIds(kind: EntityKind)
    ensures IdsIn(kind, Elements([])) == {}
  {
    assert Elements([]) == {};
  }

  // ----- Properties of the ids

  /** What `\b\d{4}-\d{2}-\d{2}\b` matches. */
  predicate IsIsoDate(d: string)
  {
    |d| == 10 && d[4] == '-' && d[7] == '-' &&
    forall i | 0 <= i < 10 && i != 4 && i != 7 :: IsDigit(d[i])
  }

  lemma DateDigits(d: string)
    requires IsIsoDate(d)
    ensures RemoveChar(d, '-') == d[..4] + d[5..7] + d[8..]
  {
    var a, b, c := d[..4], d[5..7], d[8..];
    assert d == a + (['-'] + (b + (['-'] + c)));
    assert '-' !in a && '-' !in b && '-' !in c;
    calc {
      RemoveChar(d, '-');
    == { RemoveCharAppend(a, ['-'] + (b + (['-'] + c)), '-'); RemoveCharAbsent(a, '-'); }
      a + RemoveChar(['-'] + (b + (['-'] + c)), '-');
    == { RemoveCharHead(b + (['-'] + c), '-'); }
      a + RemoveChar(b + (['-'] + c), '-');
    == { RemoveCharAppend(b, ['-'] + c, '-'); RemoveCharAbsent(b, '-'); }
      a + (b + RemoveChar(['-'] + c, '-'));
    == { RemoveCharHead(c, '-'); RemoveCharAbsent(c, '-'); }
      a + (b + c);
    }
  }

  lemma RemoveCharHead(s: string, c: char)
    ensures RemoveChar([c] + s, c) == RemoveChar(s, c)
  {
    assert ([c] + s)[1..] == s;
  }

  /** Distinct dates get distinct ids: the dashes stand at fixed places, so
      removing them loses nothing. */
  lemma DateIdInjective(a: string, b: string)
    requires IsIsoDate(a) && IsIsoDate(b)
    ensures DateId(a) == DateId(b) <==> a == b
  {
    if DateId(a) == DateId(b) {
      DateDigits(a);
      DateDigits(b);
      var s := RemoveChar(a, '-');
      assert s == DateId(a)[2..] && s == DateId(b)[2..];
      assert a == s[..4] + "-" + s[4..6] + "-" + s[6..];
      assert b == s[..4] + "-" + s[4..6] + "-" + s[6..];
    }
  }

  /** A date's id is `D:` and its eight digits. */
  lemma DateIdShape(d: string)
    requires IsIsoDate(d)
    ensures |DateId(d)| == 10 && DateId(d)[..2] == "D:"
    ensures forall i | 2 <= i < 10 :: IsDigit(DateId(d)[i])
  {
    DateDigits(d);
  }
}
