/** The table choice on the module's start page (`indexAction`): which
    tables the current page offers for import, and under which label. */
module TableFilter {
  import opened Php
  import opened Typo3

  /** Strict comparison of `ctrl.rootLevel`: on page 0 only the integers 1
      and -1 qualify; on any other page 0, -1 or an unset (or null)
      rootLevel qualifies. */
  predicate RootLevelAllows(page: int, rootLevel: Option<Value>)
  {
    if page == 0 then rootLevel == Some(Int(1)) || rootLevel == Some(Int(-1))
    else rootLevel == Some(Int(0)) || rootLevel == Some(Int(-1)) || rootLevel == None || rootLevel == Some(Null)
  }

  /** A candidate is offered when it is not disallowed, has a TCA entry, and
      its rootLevel fits the page. */
  predicate Offered(t: string, disallowed: seq<string>, tca: map<string, Ctrl>, page: int)
  {
    t !in disallowed && t in tca && RootLevelAllows(page, tca[t].rootLevel)
  }

  /** The candidates that are not offered. */
  function NotOffered(candidates: seq<string>, disallowed: seq<string>, tca: map<string, Ctrl>, page: int): set<string>
  {
    set t | t in candidates && !Offered(t, disallowed, tca, page)
  }

  /** `sL($title) ?: $title`; None when `sL` throws, since nothing catches it. */
  function TableLabel(title: string, sL: string -> Translation): Option<string>
  {
    match sL(title)
    case Throws => None
    case Translated(text) => Some(if EmptyString(text) then title else text)
  }

  /** The only rootLevel offered both on the root page and on another page is -1. */
  lemma OnlyMinusOneOnBoth(t: string, disallowed: seq<string>, tca: map<string, Ctrl>, page: int)
    requires page != 0
    ensures Offered(t, disallowed, tca, 0) && Offered(t, disallowed, tca, page)
        <==> t !in disallowed && t in tca && tca[t].rootLevel == Some(Int(-1))
  {
  }

  /** The loop of `indexAction` over the merged candidate list `tempTables`. */
  method AllowedTables(tempTables: seq<string>, disallowed: seq<string>, tca: map<string, Ctrl>, page: int,
                       sL: string -> Translation)
    returns (r: Option<OrdMap<string, string>>)
    ensures r.None? <==> exists t :: t in tempTables && Offered(t, disallowed, tca, page) && sL(tca[t].title).Throws?
    ensures r.Some? ==> Valid(r.value)
    ensures r.Some? ==> r.value.keys == Without(ArrayUnique(tempTables), NotOffered(tempTables, disallowed, tca, page))
    ensures r.Some? ==> forall t :: t in r.value.vals <==> t in tempTables && Offered(t, disallowed, tca, page)
    ensures r.Some? ==> forall t :: t in r.value.vals ==> TableLabel(tca[t].title, sL) == Some(r.value.vals[t])
  {
    var tables := ArrayUnique(tempTables);
    ghost var rejected := NotOffered(tempTables, disallowed, tca, page);
    var allowed: OrdMap<string, string> := Empty();
    for i := 0 to |tables|
      invariant Valid(allowed)
      invariant allowed.keys == Without(tables[..i], rejected)
      invariant forall t :: t in allowed.vals ==> TableLabel(tca[t].title, sL) == Some(allowed.vals[t])
      invariant forall t :: t in tables[..i] && Offered(t, disallowed, tca, page) ==> sL(tca[t].title).Translated?
    {
      var t := tables[i];
      TakeOneMore(tables, i);
      DistinctAt(tables, i);
      if t in disallowed {
        continue;
      }
      if t in tca {
        var title := tca[t].title;
        var rootLevel := tca[t].rootLevel;
        if page == 0 {
          if rootLevel == Some(Int(1)) || rootLevel == Some(Int(-1)) {
            match sL(title)
            case Throws => return None;
            case Translated(text) => allowed := Put(allowed, t, if EmptyString(text) then title else text);
          }
        } else if rootLevel == Some(Int(0)) || rootLevel == Some(Int(-1)) || rootLevel == None || rootLevel == Some(Null) {
          match sL(title)
          case Throws => return None;
          case Translated(text) => allowed := Put(allowed, t, if EmptyString(text) then title else text);
        }
      }
    }
    TakeAll(tables);
    return Some(allowed);
  }
}
