/** The personalisation part of the app's session state (app.py): the like/dislike lists
    and the rating callback `update_recommendations`, the initial suggestion fill, the
    "show activities for my profile" button and the reset button. */
module Session {
  import opened Util
  import opened Activities
  import opened Features
  import opened Recommender
  import opened Preferences

  /** The two rating lists. */
  datatype Ratings = Ratings(liked: seq<int>, disliked: seq<int>)

  /** Neither list repeats an ID or holds -1, and no ID is both liked and disliked. */
  predicate RatingsValid(r: Ratings)
  {
    NoDuplicates(r.liked) && NoDuplicates(r.disliked)
    && -1 !in r.liked && -1 !in r.disliked
    && forall id :: id in r.liked ==> id !in r.disliked
  }

  /** The first step of `update_recommendations`. `clicked` is None for an ID that is None or
      not an integer; such an ID and -1 leave the lists alone. A like (1) appends the ID to
      `liked` unless it is there and removes it from `disliked`; a dislike (-1) does the
      opposite; any other rating changes neither list. */
  function ApplyRating(r: Ratings, clicked: Option<int>, rating: int): Ratings
  {
    if clicked.None? || clicked.value == -1 then r
    else
      var id := clicked.value;
      if rating == 1 then
        Ratings(if id in r.liked then r.liked else r.liked + [id], RemoveFirst(r.disliked, id))
      else if rating == -1 then
        Ratings(RemoveFirst(r.liked, id), if id in r.disliked then r.disliked else r.disliked + [id])
      else r
  }

  lemma AppendKeepsNoDuplicates(s: seq<int>, x: int)
    requires NoDuplicates(s) && x !in s
    ensures NoDuplicates(s + [x])
  {
  }

  /** Every rating keeps the lists valid. */
  lemma ApplyRatingKeepsValid(r: Ratings, clicked: Option<int>, rating: int)
    requires RatingsValid(r)
    ensures RatingsValid(ApplyRating(r, clicked, rating))
  {
    if clicked.Some? && clicked.value != -1 {
      var id := clicked.value;
      RemoveFirstKeepsNoDuplicates(r.disliked, id);
      RemoveFirstKeepsNoDuplicates(r.liked, id);
      if id !in r.liked {
        AppendKeepsNoDuplicates(r.liked, id);
      }
      if id !in r.disliked {
        AppendKeepsNoDuplicates(r.disliked, id);
      }
    }
  }

  /** What a rating does to the membership of every ID: a like makes the ID liked and not
      disliked, a dislike the reverse, and no other ID changes list. */
  lemma ApplyRatingEffect(r: Ratings, clicked: Option<int>, rating: int)
    requires RatingsValid(r)
    ensures var r' := ApplyRating(r, clicked, rating);
      (clicked.Some? && clicked.value != -1 && rating == 1 ==>
         clicked.value in r'.liked && clicked.value !in r'.disliked)
      && (clicked.Some? && clicked.value != -1 && rating == -1 ==>
         clicked.value !in r'.liked && clicked.value in r'.disliked)
      && (clicked.None? || clicked.value == -1 || (rating != 1 && rating != -1) ==> r' == r)
      && forall x :: (clicked.None? || x != clicked.value) ==>
           (x in r'.liked <==> x in r.liked) && (x in r'.disliked <==> x in r.disliked)
  {
    if clicked.Some? {
      RemoveFirstKeepsNoDuplicates(r.disliked, clicked.value);
      RemoveFirstKeepsNoDuplicates(r.liked, clicked.value);
    }
  }

  /** Repeating a rating changes nothing more. */
  lemma ApplyRatingIdempotent(r: Ratings, clicked: Option<int>, rating: int)
    requires RatingsValid(r)
    ensures ApplyRating(ApplyRating(r, clicked, rating), clicked, rating) == ApplyRating(r, clicked, rating)
  {
    if clicked.Some? && clicked.value != -1 {
      var id := clicked.value;
      RemoveFirstKeepsNoDuplicates(r.disliked, id);
      RemoveFirstKeepsNoDuplicates(r.liked, id);
      var r' := ApplyRating(r, clicked, rating);
      if rating == 1 {
        assert id in r'.liked && id !in r'.disliked;
        assert RemoveFirst(r'.disliked, id) == r'.disliked;
      } else if rating == -1 {
        assert id in r'.disliked && id !in r'.liked;
        assert RemoveFirst(r'.liked, id) == r'.liked;
      }
    }
  }

  /** The IDs already rated, liked or disliked. */
  function Rated(r: Ratings): (s: set<int>)
    ensures forall id :: id in s <==> id in r.liked || id in r.disliked
  {
    (set id | id in r.liked) + (set id | id in r.disliked)
  }

  /** The number of suggestions in the rotating card, and of the explicit list. */
  const CardSize: nat := 5
  const ExplicitSize: nat := 10
  /** `get_profile_recommendations`' default exploration rate. */
  const ExplorationRate: real := 0.15

  /** The suggestion card `recs` that `get_profile_recommendations(profile, ..., n=5)`
      stores for the ratings `r`: at most five unrated IDs, none without a profile or for a
      profile of the wrong length or an empty matrix, and otherwise the top-ranked unrated
      rows of the walk over `scores`, with exploration, in shuffled order. */
  predicate CardFor(r: Ratings, features: Option<Matrix>, t: seq<Activity>, scores: seq<real>,
                    rnd: Randomness, profile: Option<seq<real>>, recs: seq<int>)
  {
    (profile.None? ==> recs == [])
    && |recs| <= CardSize
    && (forall id :: id in recs ==> id !in r.liked && id !in r.disliked && id != -1)
    && (profile.Some? && features.Some? && (|profile.value| != features.value.cols || features.value.cells == []) ==> recs == [])
    && ((profile.Some? && features.Some? && features.value.cols != 0 && t != []
         && |profile.value| == features.value.cols && features.value.cells != []) ==>
        var w := WalkRanked(RankedPositions(scores), t, Rated(r), CardSize);
        (w.failed ==> recs == IdsAt(w.picked, t))
        && (!w.failed ==> multiset(recs) == multiset(Explore(IdsAt(w.picked, t), t, Rated(r), CardSize, rnd.draw < ExplorationRate, rnd.choice))))
  }

  /** Step 2 of `update_recommendations` with a feature matrix and data: the profile of the
      liked rows and the suggestion card `CardFor` describes. */
  method Recompute(r: Ratings, features: Option<Matrix>, t: seq<Activity>, scores: seq<real>, rnd: Randomness)
    returns (profile: Option<seq<real>>, recs: seq<int>)
    requires features.Some? ==> WellFormed(features.value) && |scores| == |features.value.cells|
    ensures profile == CalculateUserProfile(r.liked, r.disliked, features, t)
    ensures CardFor(r, features, t, scores, rnd, profile, recs)
  {
    profile := CalculateUserProfile(r.liked, r.disliked, features, t);
    recs := [];
    if profile.Some? {
      recs := GetProfileRecommendations(profile, features, t, Rated(r), CardSize, ExplorationRate, scores, rnd);
    }
  }

  /** The session-state entries of the personalisation. `features` is the feature matrix
      built once when the app starts. */
  class Session {
    var liked: seq<int>
    var disliked: seq<int>
    var profile: Option<seq<real>>
    var profileLabel: Option<string>
    var recommendations: seq<int>
    var explicitRecommendations: Option<seq<int>>
    var features: Option<Matrix>

    predicate Valid()
      reads this
    {
      RatingsValid(Ratings(liked, disliked))
      && (features.Some? ==> WellFormed(features.value))
    }

    /** The defaults of the session state, with the feature matrix the app computes at start. */
    constructor(initialFeatures: Option<Matrix>)
      requires initialFeatures.Some? ==> WellFormed(initialFeatures.value)
      ensures Valid()
      ensures liked == [] && disliked == [] && recommendations == []
      ensures profile.None? && profileLabel.None? && explicitRecommendations.None?
      ensures features == initialFeatures
    {
      liked := [];
      disliked := [];
      profile := None;
      profileLabel := None;
      recommendations := [];
      explicitRecommendations := None;
      features := initialFeatures;
    }

    /** `update_recommendations`: applies the rating, then, with a feature matrix and data,
        recomputes the profile, the suggestions (5 of them, none rated) and the label; without
        them it clears the suggestions and the label. An invalid ID changes nothing at all.
        `scores` are the similarities of the new profile to the feature rows. */
    method UpdateRecommendations(clicked: Option<int>, rating: int, t: seq<Activity>,
                                 scores: seq<real>, rnd: Randomness)
      requires Valid()
      requires features.Some? ==> |scores| == |features.value.cells|
      modifies this
      ensures Valid()
      ensures Ratings(liked, disliked) == ApplyRating(old(Ratings(liked, disliked)), clicked, rating)
      ensures features == old(features) && explicitRecommendations == old(explicitRecommendations)
      ensures clicked.None? || clicked.value == -1 ==>
        profile == old(profile) && profileLabel == old(profileLabel) && recommendations == old(recommendations)
      ensures clicked.Some? && clicked.value != -1 && features.Some? && t != [] ==>
        profile == CalculateUserProfile(liked, disliked, features, t)
        && profileLabel == GenerateProfileLabel(CalculatePreferenceScores(liked, t))
        && CardFor(Ratings(liked, disliked), features, t, scores, rnd, profile, recommendations)
      ensures clicked.Some? && clicked.value != -1 && (features.None? || t == []) ==>
        profile == old(profile) && profileLabel.None? && recommendations == []
    {
      if clicked.None? || clicked.value == -1 {
        return;
      }
      Rate(clicked.value, rating);
      Refresh(t, scores, rnd);
    }

    /** Step 1 of `update_recommendations`: the like/dislike lists. */
    method Rate(id: int, rating: int)
      requires Valid() && id != -1
      modifies this
      ensures Valid()
      ensures Ratings(liked, disliked) == ApplyRating(old(Ratings(liked, disliked)), Some(id), rating)
      ensures features == old(features) && explicitRecommendations == old(explicitRecommendations)
      ensures profile == old(profile) && profileLabel == old(profileLabel) && recommendations == old(recommendations)
    {
      ghost var before := Ratings(liked, disliked);
      ApplyRatingKeepsValid(before, Some(id), rating);
      if rating == 1 {
        if id !in liked {
          liked := liked + [id];
        }
        if id in disliked {
          disliked := RemoveFirst(disliked, id);
        }
      } else if rating == -1 {
        if id !in disliked {
          disliked := disliked + [id];
        }
        if id in liked {
          liked := RemoveFirst(liked, id);
        }
      }
    }

    /** Steps 2 and 3 of `update_recommendations`: profile, suggestions and label. */
    method Refresh(t: seq<Activity>, scores: seq<real>, rnd: Randomness)
      requires Valid()
      requires features.Some? ==> |scores| == |features.value.cells|
      modifies this
      ensures Valid()
      ensures liked == old(liked) && disliked == old(disliked)
      ensures features == old(features) && explicitRecommendations == old(explicitRecommendations)
      ensures features.Some? && t != [] ==>
        profile == CalculateUserProfile(liked, disliked, features, t)
        && profileLabel == GenerateProfileLabel(CalculatePreferenceScores(liked, t))
        && CardFor(Ratings(liked, disliked), features, t, scores, rnd, profile, recommendations)
      ensures features.None? || t == [] ==>
        profile == old(profile) && profileLabel.None? && recommendations == []
    {
      if features.Some? && t != [] {
        RefreshSuggestions(t, scores, rnd);
        RefreshLabel(t);
      } else {
        recommendations, profileLabel := [], None;
      }
    }

    /** Step 2 of `update_recommendations`: the profile and the suggestion card. */
    method RefreshSuggestions(t: seq<Activity>, scores: seq<real>, rnd: Randomness)
      requires Valid()
      requires features.Some? ==> |scores| == |features.value.cells|
      modifies this
      ensures Valid()
      ensures liked == old(liked) && disliked == old(disliked) && features == old(features)
      ensures profileLabel == old(profileLabel) && explicitRecommendations == old(explicitRecommendations)
      ensures profile == CalculateUserProfile(liked, disliked, features, t)
      ensures CardFor(Ratings(liked, disliked), features, t, scores, rnd, profile, recommendations)
    {
      var newProfile, recs := Recompute(Ratings(liked, disliked), features, t, scores, rnd);
      profile, recommendations := newProfile, recs;
    }

    /** Step 3 of `update_recommendations`: the label of the liked Arten. */
    method RefreshLabel(t: seq<Activity>)
      requires Valid()
      modifies this
      ensures Valid()
      ensures liked == old(liked) && disliked == old(disliked) && features == old(features)
      ensures profile == old(profile) && recommendations == old(recommendations)
      ensures explicitRecommendations == old(explicitRecommendations)
      ensures profileLabel == GenerateProfileLabel(CalculatePreferenceScores(liked, t))
    {
      profileLabel := GenerateProfileLabel(CalculatePreferenceScores(liked, t));
    }

    /** The initial fill of the suggestion card: only when it is empty, it takes the distinct
        unrated IDs of the table other than -1, shuffles them with `draws` and keeps the
        first five. */
    method FillInitialSuggestions(t: seq<Activity>, draws: seq<nat>)
      requires Valid()
      modifies this
      ensures Valid()
      ensures liked == old(liked) && disliked == old(disliked) && features == old(features)
      ensures profile == old(profile) && profileLabel == old(profileLabel)
      ensures explicitRecommendations == old(explicitRecommendations)
      ensures old(recommendations) != [] ==> recommendations == old(recommendations)
      ensures old(recommendations) == [] ==>
        var candidates := UnratedIds(t, Rated(Ratings(liked, disliked)));
        |recommendations| == Min(CardSize, |candidates|)
        && NoDuplicates(recommendations)
        && forall id :: id in recommendations ==> id in candidates
    {
      if recommendations != [] {
        return;
      }
      var candidates := UnratedIds(t, Rated(Ratings(liked, disliked)));
      var shuffled := Shuffle(candidates, draws);
      PermutationKeepsNoDuplicates(candidates, shuffled);
      recommendations := shuffled[..Min(CardSize, |shuffled|)];
      forall id | id in recommendations ensures id in candidates {
        assert id in multiset(shuffled);
      }
      assert NoDuplicates(recommendations) by {
        forall i, j | 0 <= i < j < |recommendations| ensures recommendations[i] != recommendations[j] {
          assert recommendations[i] == shuffled[i] && recommendations[j] == shuffled[j];
        }
      }
    }

    /** The "show activities for my profile" button: with a profile, a feature matrix and
        data it stores up to 10 unrated suggestions without exploration; otherwise nothing
        changes. */
    method ShowProfileRecommendations(t: seq<Activity>, scores: seq<real>, rnd: Randomness)
      requires Valid()
      requires features.Some? ==> |scores| == |features.value.cells|
      modifies this
      ensures Valid()
      ensures liked == old(liked) && disliked == old(disliked) && features == old(features)
      ensures profile == old(profile) && profileLabel == old(profileLabel)
      ensures recommendations == old(recommendations)
      ensures profile.None? || features.None? || t == [] ==>
        explicitRecommendations == old(explicitRecommendations)
      ensures profile.Some? && features.Some? && t != [] ==>
        explicitRecommendations.Some?
        && |explicitRecommendations.value| <= ExplicitSize
        && forall id :: id in explicitRecommendations.value ==> id !in liked && id !in disliked && id != -1
      ensures (profile.Some? && features.Some? && features.value.cols != 0 && t != []
               && |profile.value| == features.value.cols && features.value.cells != [] && rnd.draw >= 0.0) ==>
        var w := WalkRanked(RankedPositions(scores), t, Rated(Ratings(liked, disliked)), ExplicitSize);
        multiset(explicitRecommendations.value) == multiset(IdsAt(w.picked, t))
    {
      if profile.Some? && features.Some? && t != [] {
        var rated := Rated(Ratings(liked, disliked));
        var ids := GetProfileRecommendations(profile, features, t, rated, ExplicitSize, 0.0, scores, rnd);
        explicitRecommendations := Some(ids);
      }
    }

    /** The reset button: empties both lists and the suggestions, clears the profile and its
        label, and drops the explicit list. */
    method Reset()
      requires Valid()
      modifies this
      ensures Valid()
      ensures liked == [] && disliked == [] && recommendations == []
      ensures profile.None? && profileLabel.None? && explicitRecommendations.None?
      ensures features == old(features)
    {
      liked := [];
      disliked := [];
      profile := None;
      profileLabel := None;
      recommendations := [];
      explicitRecommendations := None;
    }
  }
}
