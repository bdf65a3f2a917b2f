/**
  Choosing the session credential from the browser's cookie jar: the value
  of the first cookie named "session" replaces the default, and nothing else
  in the request-cookie map changes.
*/
module Session {

  datatype Cookie = Cookie(name: string, value: string)

  const SESSION: string := "session"

  /** The request cookies before any browser visit: only "session", empty. */
  const INITIAL_COOKIES: map<string, string> := map[SESSION := ""]

  /** Position of the first cookie named "session", or the jar's length when there is none. */
  function FirstSessionIndex(jar: seq<Cookie>): (i: nat)
    ensures i <= |jar|
    ensures i < |jar| ==> jar[i].name == SESSION
    ensures forall j :: 0 <= j < i ==> jar[j].name != SESSION
  {
    if |jar| == 0 then 0
    else if jar[0].name == SESSION then 0
    else 1 + FirstSessionIndex(jar[1..])
  }

  /** The request cookies after the search through the jar. */
  function AdoptSession(cookies: map<string, string>, jar: seq<Cookie>): (r: map<string, string>)
    ensures forall i :: 0 <= i < |jar| && jar[i].name == SESSION
                        && (forall j :: 0 <= j < i ==> jar[j].name != SESSION)
                        ==> SESSION in r && r[SESSION] == jar[i].value
    ensures (forall i :: 0 <= i < |jar| ==> jar[i].name != SESSION) ==> r == cookies
    ensures r.Keys == cookies.Keys || r.Keys == cookies.Keys + {SESSION}
    ensures forall k :: k in cookies && k != SESSION ==> r[k] == cookies[k]
  {
    var i := FirstSessionIndex(jar);
    if i < |jar| then cookies[SESSION := jar[i].value] else cookies
  }

  /**
    Starting from the initial cookies, the stored session value is that of
    the first cookie named "session", or "" when the jar has none.
  */
  lemma StoredSession(jar: seq<Cookie>)
    ensures AdoptSession(INITIAL_COOKIES, jar).Keys == {SESSION}
    ensures (exists i :: 0 <= i < |jar| && jar[i].name == SESSION)
            ==> AdoptSession(INITIAL_COOKIES, jar)[SESSION] == jar[FirstSessionIndex(jar)].value
    ensures (forall i :: 0 <= i < |jar| ==> jar[i].name != SESSION)
            ==> AdoptSession(INITIAL_COOKIES, jar)[SESSION] == ""
  {
    if exists i :: 0 <= i < |jar| && jar[i].name == SESSION {
      var i :| 0 <= i < |jar| && jar[i].name == SESSION;
      assert FirstSessionIndex(jar) <= i;
    }
  }
}
