/**
 * The "Deep Dive: Tech Stack Analysis" counts: for every category of a fixed keyword
 * taxonomy, how often each of its keywords occurs in the lower-cased text rendering of
 * the filtered table, keeping only the keywords that occur.
 */
module TechStack {
  import opened Wrappers
  import opened Text

  /** Category names with their keywords, in the order the dictionary literal gives them. */
  type Taxonomy = seq<(string, seq<string>)>

  /** `tech_keywords` */
  const TechKeywords: Taxonomy := [
    ("Cloud & DevOps", [
      "AWS", "GCP", "Azure", "Docker", "Kubernetes", "K8s", "CI/CD", "Terraform", "Linux", "Jenkins", "Git",
      "雲端", "虛擬化", "容器", "自動化部署", "微服務"]),
    ("Big Data", [
      "Spark", "Hadoop", "Kafka", "Airflow", "Flink", "Hive", "Databricks", "ETL",
      "大數據", "海量資料", "資料倉儲", "Data Warehouse", "資料湖", "Data Lake", "爬蟲", "數據分析"]),
    ("Database", [
      "SQL", "NoSQL", "MongoDB", "PostgreSQL", "MySQL", "Redis", "Elasticsearch", "Oracle", "MSSQL",
      "資料庫", "數據庫", "關聯式", "優化", "Stored Procedure"]),
    ("AI/ML Frameworks", [
      "PyTorch", "TensorFlow", "Keras", "Scikit-learn", "OpenCV", "LLM", "Transformer", "RAG", "YOLO",
      "HuggingFace", "LangChain", "Bert",
      "人工智慧", "機器學習", "深度學習", "自然語言", "NLP", "電腦視覺", "影像辨識", "演算法", "模型訓練", "生成式"]),
    ("Programming & Backend", [
      "Python", "Java", "Scala", "C++", "C#", "Go", "Rust", "JavaScript", "TypeScript", "Kotlin", "Swift",
      "後端", "前端", "全端", "物件導向", "API", "RESTful"])
  ]

  /** The `counts` dictionary of one category after its inner loop, for an already
      lower-cased `text`. */
  function KeywordCounts(text: string, keywords: seq<string>): map<string, nat>
  {
    if keywords == [] then map[]
    else
      var n := |keywords| - 1;
      var counts := KeywordCounts(text, keywords[..n]);
      var count := Count(text, Lower(keywords[n]));
      if count > 0 then counts[keywords[n] := count] else counts
  }

  /** A category's counts hold exactly its keywords, in their own spelling, whose
      lower-cased form occurs in the text, each with its `str.count`, which is positive. */
  lemma {:induction false} KeywordCountsMeaning(text: string, keywords: seq<string>)
    ensures forall kw :: kw in KeywordCounts(text, keywords) <==> kw in keywords && Contains(text, Lower(kw))
    ensures forall kw :: kw in KeywordCounts(text, keywords) ==>
      KeywordCounts(text, keywords)[kw] == Count(text, Lower(kw)) > 0
  {
    if keywords != [] {
      var n := |keywords| - 1;
      KeywordCountsMeaning(text, keywords[..n]);
      assert keywords == keywords[..n] + [keywords[n]];
      CountPositiveIffContains(text, Lower(keywords[n]));
    }
  }

  /** `category_counts` after the outer loop: one entry per category, a later entry of the
      same name replacing an earlier one. */
  function CategoryCounts(text: string, taxonomy: Taxonomy): map<string, map<string, nat>>
  {
    if taxonomy == [] then map[]
    else
      var n := |taxonomy| - 1;
      CategoryCounts(text, taxonomy[..n])[taxonomy[n].0 := KeywordCounts(text, taxonomy[n].1)]
  }

  /** No category name is given twice. */
  ghost predicate DistinctNames(taxonomy: Taxonomy)
  {
    forall i, j :: 0 <= i < j < |taxonomy| ==> taxonomy[i].0 != taxonomy[j].0
  }

  /** Every category of the taxonomy gets an entry, and nothing else does; with distinct
      names each entry is the counts of that category's own keywords. */
  lemma {:induction false} CategoryCountsMeaning(text: string, taxonomy: Taxonomy)
    ensures forall name :: name in CategoryCounts(text, taxonomy) <==>
      exists i :: 0 <= i < |taxonomy| && taxonomy[i].0 == name
    ensures DistinctNames(taxonomy) ==> forall i :: 0 <= i < |taxonomy| ==>
      CategoryCounts(text, taxonomy)[taxonomy[i].0] == KeywordCounts(text, taxonomy[i].1)
  {
    if taxonomy != [] {
      var n := |taxonomy| - 1;
      var init := taxonomy[..n];
      CategoryCountsMeaning(text, init);
      assert forall i :: 0 <= i < n ==> init[i] == taxonomy[i];
      forall name | name in CategoryCounts(text, taxonomy)
        ensures exists i :: 0 <= i < |taxonomy| && taxonomy[i].0 == name
      {
        if name != taxonomy[n].0 {
          assert name in CategoryCounts(text, init);
          var i :| 0 <= i < n && init[i].0 == name;
          assert taxonomy[i].0 == name;
        }
      }
    }
  }

  /** The taxonomy's five category names are distinct. */
  lemma TechKeywordsHaveDistinctNames()
    ensures DistinctNames(TechKeywords)
  {
  }

  /** A lower-cased text in which "docker" occurs twice and no other keyword of
      "Cloud & DevOps" occurs gets exactly {"Docker": 2} for that category. */
  lemma CloudCountsForDockerTwice(text: string)
    requires Count(text, "docker") == 2
    requires forall i :: 0 <= i < |TechKeywords[0].1| && i != 3 ==> !Contains(text, Lower(TechKeywords[0].1[i]))
    ensures KeywordCounts(text, TechKeywords[0].1) == map["Docker" := 2]
  {
    var keywords := TechKeywords[0].1;
    assert keywords[3] == "Docker";
    assert Lower("Docker") == "docker";
    CountPositiveIffContains(text, "docker");
    KeywordCountsMeaning(text, keywords);
    var counts := KeywordCounts(text, keywords);
    forall kw | kw in counts
      ensures kw == "Docker"
    {
      var i :| 0 <= i < |keywords| && keywords[i] == kw;
    }
    assert counts.Keys == {"Docker"};
  }

  /** "Docker docker", lower-cased, holds "docker" twice ... */
  lemma DockerOccursTwice()
    ensures Lower("Docker docker") == "docker docker"
    ensures Count("docker docker", "docker") == 2
  {
    var text := "docker docker";
    var pat := "docker";
    assert IndexOf(text, pat) == Some(0);
    var rest := text[6..];
    assert rest == " docker";
    assert rest[0..6][0] != pat[0];
    assert IndexFrom(rest, pat, 1) == Some(1);
    assert IndexOf(rest, pat) == Some(1);
    assert rest[7..] == [];
  }

  /** ... and none of the other Cloud & DevOps keywords. */
  lemma OtherCloudKeywordsAbsent()
    ensures forall i :: 0 <= i < |TechKeywords[0].1| && i != 3 ==> !Contains("docker docker", Lower(TechKeywords[0].1[i]))
  {
    var text := "docker docker";
    var keywords := TechKeywords[0].1;
    // for each keyword, a position of its lower-cased form holding a character the text lacks
    var absentAt := [1, 2, 1, 0, 1, 1, 2, 5, 1, 2, 1, 0, 0, 0, 0, 0];
    forall i | 0 <= i < |keywords| && i != 3
      ensures !Contains(text, Lower(keywords[i]))
    {
      AbsentCharNotContained(text, Lower(keywords[i]), absentAt[i]);
    }
  }

  /** The Cloud & DevOps counts of "Docker docker". */
  lemma DockerTwiceExample()
    ensures KeywordCounts(Lower("Docker docker"), TechKeywords[0].1) == map["Docker" := 2]
  {
    DockerOccursTwice();
    OtherCloudKeywordsAbsent();
    CloudCountsForDockerTwice("docker docker");
  }

  /** The nested loops that fill `category_counts`, over the lower-cased rendering
      `rendered.lower()` of the filtered table. */
  method CountCategories(rendered: string, taxonomy: Taxonomy) returns (categoryCounts: map<string, map<string, nat>>)
    ensures categoryCounts == CategoryCounts(Lower(rendered), taxonomy)
  {
    var text := Lower(rendered);
    categoryCounts := map[];
    var i := 0;
    while i < |taxonomy|
      invariant 0 <= i <= |taxonomy|
      invariant categoryCounts == CategoryCounts(text, taxonomy[..i])
    {
      var (category, keywords) := taxonomy[i];
      var counts: map<string, nat> := map[];
      var j := 0;
      while j < |keywords|
        invariant 0 <= j <= |keywords|
        invariant counts == KeywordCounts(text, keywords[..j])
      {
        var kw := keywords[j];
        var count := Count(text, Lower(kw));
        if count > 0 {
          counts := counts[kw := count];
        }
        assert keywords[..j + 1][..j] == keywords[..j];
        j := j + 1;
      }
      assert keywords[..j] == keywords;
      categoryCounts := categoryCounts[category := counts];
      assert taxonomy[..i + 1][..i] == taxonomy[..i];
      i := i + 1;
    }
    assert taxonomy[..i] == taxonomy;
  }
}
