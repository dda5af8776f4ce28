/** The small helpers of src/app/utils/helpers.ts. */
module Helpers {
  import opened Models

  /** Drops one trailing '/' (the regular expression /\/$/ matches only at
      the very end, and `replace` without the global flag replaces once). */
  function FormatHost(host: string): (r: string)
    ensures |host| > 0 && host[|host| - 1] == '/' ==> r + "/" == host
    ensures (|host| == 0 || host[|host| - 1] != '/') ==> r == host
    ensures r <= host && |host| - 1 <= |r| <= |host|
  {
    if |host| > 0 && host[|host| - 1] == '/' then host[..|host| - 1] else host
  }

  /** Formatting undoes appending a slash, and only one slash is removed. */
  lemma FormatHostStripsOneSlash(s: string)
    ensures FormatHost(s + "/") == s
    ensures FormatHost(s + "//") == s + "/"
  {
    assert (s + "/")[..|s|] == s;
    assert (s + "//")[..|s| + 1] == s + "/";
  }

  /** `Math.floor(Math.random() * 1e3)`, with the random number as a parameter. */
  function RandomInteger(random: real): (n: int)
    requires 0.0 <= random < 1.0
    ensures 0 <= n < 1000
  {
    (random * 1000.0).Floor
  }

  /** The first element whose id is `id`, or null when there is none. */
  function GetFromArrayById(items: seq<Job>, id: int): (r: Option<Job>)
    ensures r.None? <==> forall i :: 0 <= i < |items| ==> items[i].id != id
    ensures r.Some? ==> exists i :: 0 <= i < |items| && items[i] == r.value && r.value.id == id &&
                                   forall j :: 0 <= j < i ==> items[j].id != id
    decreases |items|
  {
    if items == [] then None
    else if items[0].id == id then Some(items[0])
    else
      var r := GetFromArrayById(items[1..], id);
      assert r.Some? ==> exists i :: 0 <= i < |items| && items[i] == r.value && r.value.id == id &&
                                    forall j :: 0 <= j < i ==> items[j].id != id by {
        if r.Some? {
          var i :| 0 <= i < |items[1..]| && items[1..][i] == r.value && r.value.id == id &&
                   forall j :: 0 <= j < i ==> items[1..][j].id != id;
          assert items[i + 1] == r.value;
          forall j | 0 <= j < i + 1 ensures items[j].id != id {
            if j > 0 { assert items[j] == items[1..][j - 1]; }
          }
        }
      }
      r
  }
}
